/** The part of Go's `strings` package that the SELECT renderer uses: `strings.Join`, which
    writes the column list (select.go:36). `JoinAppend` is what the builder's column laws rest
    on; `JoinEnds` and `JoinLength` (with `TotalLength`, the summed length of the elements it
    speaks of) are further laws of `strings.Join` stated for their own sake, and no other
    module depends on them. The remaining lemmas are small facts
    about string concatenation used throughout the renderer's proofs. */
module Strings {

  /** The elements of `xs` in order, with `sep` between each pair of neighbours;
      the empty list joins to the empty string. */
  function Join(xs: seq<string>, sep: string): string
  {
    if |xs| == 0 then ""
    else if |xs| == 1 then xs[0]
    else xs[0] + sep + Join(xs[1..], sep)
  }

  /** A non-empty list joins to text that begins with its first element and ends with its last. */
  lemma {:induction false} JoinEnds(xs: seq<string>, sep: string)
    requires |xs| > 0
    ensures xs[0] <= Join(xs, sep)
    ensures |xs[|xs| - 1]| <= |Join(xs, sep)|
    ensures Join(xs, sep)[|Join(xs, sep)| - |xs[|xs| - 1]|..] == xs[|xs| - 1]
  {
    if |xs| > 1 {
      JoinEnds(xs[1..], sep);
      var rest := Join(xs[1..], sep);
      var last := xs[|xs| - 1];
      assert xs[1..][|xs[1..]| - 1] == last;
      assert Join(xs, sep) == (xs[0] + sep) + rest;
      assert Join(xs, sep)[|Join(xs, sep)| - |last|..] == rest[|rest| - |last|..];
    }
  }

  /** Joining two non-empty lists one after the other is joining their concatenation:
      the two halves meet at exactly one separator. */
  lemma {:induction false} JoinAppend(xs: seq<string>, ys: seq<string>, sep: string)
    requires |xs| > 0 && |ys| > 0
    ensures Join(xs + ys, sep) == Join(xs, sep) + sep + Join(ys, sep)
  {
    if |xs| == 1 {
      assert (xs + ys)[1..] == ys;
    } else {
      assert (xs + ys)[1..] == xs[1..] + ys;
      JoinAppend(xs[1..], ys, sep);
    }
  }

  /** The length of a join: every element once, and one separator between each pair of neighbours. */
  lemma {:induction false} JoinLength(xs: seq<string>, sep: string)
    requires |xs| > 0
    ensures |Join(xs, sep)| == TotalLength(xs) + (|xs| - 1) * |sep|
  {
    if |xs| > 1 {
      JoinLength(xs[1..], sep);
      assert (|xs| - 1) * |sep| == (|xs| - 2) * |sep| + |sep|;
    }
  }

  /** The sum of the lengths of the elements of `xs`. */
  function TotalLength(xs: seq<string>): nat
  {
    if |xs| == 0 then 0 else |xs[0]| + TotalLength(xs[1..])
  }

  /** Concatenation regroups freely; stated once for strings so that proofs about text
      built piece by piece do not re-derive it element by element. */
  lemma ConcatAssoc(a: string, b: string, c: string)
    ensures (a + b) + c == a + (b + c)
  {
  }

  /** Dropping a prefix's length from a concatenation leaves the second part. */
  lemma DropPrefix(a: string, b: string)
    ensures (a + b)[|a|..] == b
  {
  }

  /** Appending nothing leaves a string as it is. */
  lemma AppendEmpty(a: string)
    ensures a + "" == a
  {
  }
}
