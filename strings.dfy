/** Filtering, concatenating and joining strings, with the facts about them
    that the text-processing proofs rely on. */
module Strings {

  /** The characters of `s` that satisfy `p`, in their original order. */
  function Filter(s: string, p: char -> bool): (r: string)
    ensures |r| <= |s|
    ensures forall i | 0 <= i < |r| :: p(r[i])
  {
    if s == [] then [] else (if p(s[0]) then [s[0]] else []) + Filter(s[1..], p)
  }

  /** `''.join(ws)`. */
  function Concat(ws: seq<string>): string {
    if ws == [] then [] else ws[0] + Concat(ws[1..])
  }

  /** `sep.join(ws)`: the words of `ws` with `sep` between each two of them. */
  function Join(ws: seq<string>, sep: string): string {
    if ws == [] then []
    else if |ws| == 1 then ws[0]
    else ws[0] + sep + Join(ws[1..], sep)
  }

  /** A joined text starts with its first word. */
  lemma {:induction false} JoinStart(ws: seq<string>, sep: string)
    requires ws != []
    ensures ws[0] <= Join(ws, sep)
  {
    if |ws| > 1 {
      assert Join(ws, sep) == ws[0] + (sep + Join(ws[1..], sep));
    }
  }

  /** Joining two non-empty lists is joining each and putting `sep` between. */
  lemma {:induction false} JoinAppend(a: seq<string>, b: seq<string>, sep: string)
    requires a != [] && b != []
    ensures Join(a + b, sep) == Join(a, sep) + sep + Join(b, sep)
  {
    if |a| > 1 {
      assert (a + b)[1..] == a[1..] + b;
      JoinAppend(a[1..], b, sep);
    } else {
      assert (a + b)[1..] == b;
    }
  }

  lemma {:induction false} FilterAppend(a: string, b: string, p: char -> bool)
    ensures Filter(a + b, p) == Filter(a, p) + Filter(b, p)
  {
    if a == [] {
      assert a + b == b;
    } else {
      assert (a + b)[0] == a[0];
      assert (a + b)[1..] == a[1..] + b;
      FilterAppend(a[1..], b, p);
    }
  }

  lemma {:induction false} FilterAll(s: string, p: char -> bool)
    requires forall i | 0 <= i < |s| :: p(s[i])
    ensures Filter(s, p) == s
  {
    if s != [] {
      FilterAll(s[1..], p);
    }
  }

  lemma {:induction false} FilterNone(s: string, p: char -> bool)
    requires forall i | 0 <= i < |s| :: !p(s[i])
    ensures Filter(s, p) == []
  {
    if s != [] {
      FilterNone(s[1..], p);
    }
  }

  /** Every character `Filter` keeps was in the input, so whatever holds of all
      characters of the input holds of all characters of the output. */
  lemma {:induction false} FilterKeeps(s: string, p: char -> bool, q: char -> bool)
    requires forall i | 0 <= i < |s| :: q(s[i])
    ensures forall i | 0 <= i < |Filter(s, p)| :: q(Filter(s, p)[i])
  {
    if s != [] {
      FilterKeeps(s[1..], p, q);
    }
  }

  /** Filtering twice is filtering once by the conjunction. */
  lemma {:induction false} FilterFilter(s: string, p: char -> bool, q: char -> bool, both: char -> bool)
    requires forall c :: both(c) == (p(c) && q(c))
    ensures Filter(Filter(s, p), q) == Filter(s, both)
  {
    if s != [] {
      var head: string := if p(s[0]) then [s[0]] else [];
      FilterAppend(head, Filter(s[1..], p), q);
      FilterFilter(s[1..], p, q, both);
    }
  }

  /** Dropping the separator characters from a joined string leaves the
      concatenated words, when the words themselves are kept whole. */
  lemma {:induction false} FilterJoin(ws: seq<string>, sep: string, p: char -> bool)
    requires forall k | 0 <= k < |ws| :: Filter(ws[k], p) == ws[k]
    requires Filter(sep, p) == []
    ensures Filter(Join(ws, sep), p) == Concat(ws)
  {
    if |ws| == 1 {
      assert Concat(ws[1..]) == [];
    } else if |ws| > 1 {
      FilterJoin(ws[1..], sep, p);
      FilterAppend(ws[0] + sep, Join(ws[1..], sep), p);
      FilterAppend(ws[0], sep, p);
    }
  }
}
