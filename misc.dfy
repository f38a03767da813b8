/** misc: the one-line helper that prints an array as "[a, b, c]". */
module Misc {

  /** `Array.prototype.join(sep)` of elements already converted to text. */
  function Join(xs: seq<string>, sep: string): string {
    if |xs| == 0 then ""
    else if |xs| == 1 then xs[0]
    else xs[0] + sep + Join(xs[1..], sep)
  }

  /** Total length of the elements' texts. */
  function TotalLength(xs: seq<string>): nat {
    if xs == [] then 0 else |xs[0]| + TotalLength(xs[1..])
  }

  /** `arrayToString`: the elements joined by ", " inside square brackets. */
  function ArrayToString(xs: seq<string>): (r: string)
    ensures |r| >= 2 && r[0] == '[' && r[|r| - 1] == ']'
    ensures r[1..|r| - 1] == Join(xs, ", ")
  {
    "[" + Join(xs, ", ") + "]"
  }

  lemma EmptyArrayToString()
    ensures ArrayToString([]) == "[]"
  {
  }

  lemma SingletonArrayToString(x: string)
    ensures ArrayToString([x]) == "[" + x + "]"
  {
  }

  /** Every element is followed by one separator, except the last. */
  lemma {:induction false} JoinLength(xs: seq<string>, sep: string)
    requires xs != []
    ensures |Join(xs, sep)| == TotalLength(xs) + (|xs| - 1) * |sep|
  {
    if |xs| > 1 {
      JoinLength(xs[1..], sep);
    }
  }

  lemma ArrayToStringLength(xs: seq<string>)
    requires xs != []
    ensures |ArrayToString(xs)| == TotalLength(xs) + 2 * (|xs| - 1) + 2
  {
    JoinLength(xs, ", ");
  }

  /** Appending an element appends the separator and that element's text. */
  lemma {:induction false} JoinSnoc(xs: seq<string>, y: string, sep: string)
    requires xs != []
    ensures Join(xs + [y], sep) == Join(xs, sep) + sep + y
  {
    if |xs| == 1 {
      assert xs + [y] == [xs[0], y];
    } else {
      assert (xs + [y])[1..] == xs[1..] + [y];
      JoinSnoc(xs[1..], y, sep);
    }
  }
}
