/** The GLib string primitives the library relies on: `g_ascii_isspace`,
    `g_strstrip`, `strchr`, and `g_strsplit` with and without a piece limit. */
module Text {

  /** `g_ascii_isspace`: space, tab, newline, form feed and carriage
      return. GLib's character table does not mark vertical tab (0x0B) as
      white space, unlike C's `isspace`. */
  predicate IsAsciiSpace(c: char) {
    c == ' ' || c == '\t' || c == '\n' || c == '\U{C}' || c == '\r'
  }

  /** Neither the first nor the last character is ASCII white space. */
  predicate NoEdgeSpace(s: string) {
    s == [] || (!IsAsciiSpace(s[0]) && !IsAsciiSpace(s[|s| - 1]))
  }

  /** `g_strchug`: drop leading white space. */
  function StripLeading(s: string): (r: string)
    ensures |r| <= |s|
    ensures r == [] || !IsAsciiSpace(r[0])
  {
    if s != [] && IsAsciiSpace(s[0]) then StripLeading(s[1..]) else s
  }

  /** `g_strchug` keeps a suffix. */
  lemma {:induction false} StripLeadingSuffix(s: string)
    ensures StripLeading(s) == s[|s| - |StripLeading(s)|..]
  {
    if s != [] && IsAsciiSpace(s[0]) {
      StripLeadingSuffix(s[1..]);
    }
  }

  /** `g_strchomp`: drop trailing white space. */
  function StripTrailing(s: string): (r: string)
    ensures |r| <= |s|
    ensures r == [] || !IsAsciiSpace(r[|r| - 1])
  {
    if s != [] && IsAsciiSpace(s[|s| - 1]) then StripTrailing(s[..|s| - 1]) else s
  }

  /** `g_strchomp` keeps a prefix. */
  lemma {:induction false} StripTrailingPrefix(s: string)
    ensures StripTrailing(s) == s[..|StripTrailing(s)|]
  {
    if s != [] && IsAsciiSpace(s[|s| - 1]) {
      StripTrailingPrefix(s[..|s| - 1]);
    }
  }

  /** `r` is `s` with white space, and only white space, cut from before index `lo` and after `r`. */
  predicate TrimmedAt(s: string, r: string, lo: int) {
    && 0 <= lo <= |s| - |r|
    && r == s[lo..lo + |r|]
    && (forall i :: 0 <= i < lo ==> IsAsciiSpace(s[i]))
    && (forall i :: lo + |r| <= i < |s| ==> IsAsciiSpace(s[i]))
  }

  /** `g_strstrip`: drop white space at both ends. */
  function Strip(s: string): (r: string)
    ensures NoEdgeSpace(r)
    ensures |r| <= |s|
  {
    StripTrailingPrefix(StripLeading(s));
    StripTrailing(StripLeading(s))
  }

  /** What `Strip` cuts off is white space, and only white space, at the two
      ends: the result is the infix of `s` that starts at the first
      non-space character. */
  lemma StripTrims(s: string)
    ensures TrimmedAt(s, Strip(s), |s| - |StripLeading(s)|)
  {
    var t := StripLeading(s);
    StripLeadingSuffix(s);
    StripTrailingPrefix(t);
    StripLeadingCuts(s);
    StripTrailingCuts(t);
    TrimmedFromParts(s, t, StripTrailing(t));
  }

  /** Cutting white space from the front and then from the back trims. */
  lemma TrimmedFromParts(s: string, t: string, r: string)
    requires |t| <= |s| && t == s[|s| - |t|..]
    requires |r| <= |t| && r == t[..|r|]
    requires forall i :: 0 <= i < |s| - |t| ==> IsAsciiSpace(s[i])
    requires forall j :: |r| <= j < |t| ==> IsAsciiSpace(t[j])
    ensures TrimmedAt(s, r, |s| - |t|)
  {
    var lo := |s| - |t|;
    assert r == s[lo..lo + |r|];
    forall i | lo + |r| <= i < |s|
      ensures IsAsciiSpace(s[i])
    {
      assert s[i] == t[i - lo];
    }
  }

  /** `StripLeading` cuts white space only. */
  lemma {:induction false} StripLeadingCuts(s: string)
    ensures forall i :: 0 <= i < |s| - |StripLeading(s)| ==> IsAsciiSpace(s[i])
  {
    if s != [] && IsAsciiSpace(s[0]) {
      StripLeadingCuts(s[1..]);
    }
  }

  /** `StripTrailing` cuts white space only. */
  lemma {:induction false} StripTrailingCuts(s: string)
    ensures forall i :: |StripTrailing(s)| <= i < |s| ==> IsAsciiSpace(s[i])
  {
    if s != [] && IsAsciiSpace(s[|s| - 1]) {
      StripTrailingCuts(s[..|s| - 1]);
    }
  }

  /** `Strip` introduces no character. */
  lemma StripChars(s: string)
    ensures forall c :: c in Strip(s) ==> c in s
  {
    var r := Strip(s);
    var lo := |s| - |StripLeading(s)|;
    StripTrims(s);
    forall c | c in r
      ensures c in s
    {
      var i :| 0 <= i < |r| && r[i] == c;
      assert s[lo + i] == c;
    }
  }

  /** A string with no white space at its ends is its own strip. */
  lemma StripFixed(s: string)
    requires NoEdgeSpace(s)
    ensures Strip(s) == s
  {
  }

  /** Every character is ASCII white space. */
  predicate AllSpace(s: string) {
    forall i :: 0 <= i < |s| ==> IsAsciiSpace(s[i])
  }

  /** Leading white space in front of a non-blank text is all `g_strchug` removes. */
  lemma {:induction false} StripLeadingPadded(a: string, s: string)
    requires AllSpace(a) && s != [] && !IsAsciiSpace(s[0])
    ensures StripLeading(a + s) == s
    decreases |a|
  {
    if a != [] {
      assert (a + s)[1..] == a[1..] + s;
      StripLeadingPadded(a[1..], s);
    }
  }

  /** Trailing white space after a non-blank text is all `g_strchomp` removes. */
  lemma {:induction false} StripTrailingPadded(s: string, b: string)
    requires AllSpace(b) && s != [] && !IsAsciiSpace(s[|s| - 1])
    ensures StripTrailing(s + b) == s
    decreases |b|
  {
    if b != [] {
      assert (s + b)[..|s + b| - 1] == s + b[..|b| - 1];
      StripTrailingPadded(s, b[..|b| - 1]);
    }
  }

  /** `g_strstrip` of a non-empty unpadded text with white space around it
      gives the text. */
  lemma StripPadded(a: string, s: string, b: string)
    requires AllSpace(a) && AllSpace(b) && s != [] && NoEdgeSpace(s)
    ensures Strip(a + s + b) == s
  {
    assert a + s + b == a + (s + b);
    StripLeadingPadded(a, s + b);
    StripTrailingPadded(s, b);
  }

  /** Stripping is idempotent. */
  lemma StripIdempotent(s: string)
    ensures Strip(Strip(s)) == Strip(s)
  {
    StripFixed(Strip(s));
  }

  /** Index of the first `c` in `s`, or `|s|` when there is none (`strchr`). */
  function Find(s: string, c: char): (i: nat)
    ensures i <= |s|
    ensures i < |s| ==> s[i] == c
    ensures forall j :: 0 <= j < i ==> s[j] != c
    ensures i == |s| <==> c !in s
  {
    if s == [] then 0
    else if s[0] == c then 0
    else 1 + Find(s[1..], c)
  }

  /** The C string a buffer denotes: everything before the first NUL. */
  function CString(s: string): (r: string)
    ensures '\0' !in r
    ensures r <= s
    ensures '\0' !in s ==> r == s
    ensures '\0' in s ==> |r| < |s| && s[|r|] == '\0'
  {
    s[..Find(s, '\0')]
  }

  /** `g_strsplit(s, {c}, 2)` on a non-empty string: the part before the
      first `c` and the part after it, or `None` when `c` does not occur. */
  function SplitOnce(s: string, c: char): (r: (bool, string, string))
    ensures r.0 <==> c in s
    ensures r.0 ==> s == r.1 + [c] + r.2 && c !in r.1
  {
    var i := Find(s, c);
    if i == |s| then (false, s, []) else (true, s[..i], s[i + 1..])
  }

  /** The pieces of `s` between occurrences of `c`; `k` occurrences give `k + 1` pieces. */
  function Pieces(s: string, c: char): (r: seq<string>)
    ensures |r| >= 1
    ensures forall i :: 0 <= i < |r| ==> c !in r[i]
    decreases |s|
  {
    var i := Find(s, c);
    if i == |s| then [s] else [s[..i]] + Pieces(s[i + 1..], c)
  }

  /** `g_strsplit(s, {c}, -1)`: an empty string has no pieces at all. */
  function Split(s: string, c: char): (r: seq<string>)
    ensures s == [] <==> r == []
    ensures forall i :: 0 <= i < |r| ==> c !in r[i]
  {
    if s == [] then [] else Pieces(s, c)
  }

  /** A character absent from `s` is absent from every piece of it. */
  lemma {:induction false} PiecesLack(s: string, c: char, x: char)
    requires x !in s
    ensures forall i :: 0 <= i < |Pieces(s, c)| ==> x !in Pieces(s, c)[i]
    decreases |s|
  {
    var i := Find(s, c);
    if i < |s| {
      PiecesLack(s[i + 1..], c, x);
      assert x !in s[..i];
    }
  }

  /** Pieces glued back together with `c` between neighbours. */
  function Join(ps: seq<string>, c: char): string
  {
    if ps == [] then []
    else if |ps| == 1 then ps[0]
    else ps[0] + [c] + Join(ps[1..], c)
  }

  /** Joining the pieces gives back the split string. */
  lemma {:induction false} JoinPieces(s: string, c: char)
    ensures Join(Pieces(s, c), c) == s
    decreases |s|
  {
    var i := Find(s, c);
    if i < |s| {
      var rest := Pieces(s[i + 1..], c);
      var ps := [s[..i]] + rest;
      assert Pieces(s, c) == ps;
      assert ps[0] == s[..i] && ps[1..] == rest && |ps| > 1;
      JoinPieces(s[i + 1..], c);
      assert Join(ps, c) == s[..i] + [c] + Join(rest, c);
      assert s == s[..i] + [c] + s[i + 1..];
    }
  }

  /** Splitting then joining is the identity, for every string. */
  lemma JoinSplit(s: string, c: char)
    ensures Join(Split(s, c), c) == s
  {
    if s != [] {
      JoinPieces(s, c);
    }
  }

  /** Regrouping three leading elements (stated generically, so that no
      string function is in view). */
  lemma ConsThree<T>(a: T, b: T, c: T, p: seq<T>)
    ensures [a] + ([b] + ([c] + p)) == [a, b, c] + p
  {
  }

  /** Regrouping a five-element display (stated generically, like `ConsThree`). */
  lemma ConsFive<T>(a: T, b: T, c: T, d: T, e: T)
    ensures [a] + ([b] + ([c] + ([d] + ([e] + [])))) == [a, b, c, d, e]
  {
  }

  /** The first occurrence of `c` in `a + [c] + b` is at `|a|` when `a` holds no `c`. */
  lemma {:induction false} FindAfterPrefix(a: string, c: char, b: string)
    requires c !in a
    ensures Find(a + [c] + b, c) == |a|
  {
    if a != [] {
      assert (a + [c] + b)[1..] == a[1..] + [c] + b;
      FindAfterPrefix(a[1..], c, b);
    }
  }

  /** Splitting at the first `c` recovers the two sides when the left one holds no `c`. */
  lemma SplitOnceAt(a: string, c: char, b: string)
    requires c !in a
    ensures SplitOnce(a + [c] + b, c) == (true, a, b)
  {
    FindAfterPrefix(a, c, b);
    var s := a + [c] + b;
    assert s[..|a|] == a;
    assert s[|a| + 1..] == b;
  }

  /** A line followed by a separator splits off as the first piece. */
  lemma PiecesCons(line: string, c: char, rest: string)
    requires c !in line
    ensures Pieces(line + [c] + rest, c) == [line] + Pieces(rest, c)
  {
    var s := line + [c] + rest;
    FindAfterPrefix(line, c, rest);
    assert s[..|line|] == line;
    assert s[|line| + 1..] == rest;
  }

  /** Splitting a join gives back the pieces, when none holds the separator. */
  lemma {:induction false} PiecesJoin(ps: seq<string>, c: char)
    requires |ps| >= 1
    requires forall i :: 0 <= i < |ps| ==> c !in ps[i]
    ensures Pieces(Join(ps, c), c) == ps
    decreases |ps|
  {
    if |ps| == 1 {
      assert Find(ps[0], c) == |ps[0]|;
    } else {
      PiecesJoin(ps[1..], c);
      PiecesCons(ps[0], c, Join(ps[1..], c));
      assert [ps[0]] + ps[1..] == ps;
    }
  }
}
