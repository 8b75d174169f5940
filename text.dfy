/**
  The three string operations the configuration passes through: Python's
  `str.strip()`, `str.upper()` and `str.split(',')`, with `','.join` as the
  partner of `split`.
 */
module Text {

  /** `str.isspace()` for one character: the characters Python's `strip()`
      with no argument removes. */
  predicate IsSpace(c: char) {
    if c < '\U{80}' then
      || '\t' <= c <= '\r'
      || '\U{1c}' <= c <= ' '
    else
      || c == '\U{85}'
      || c == '\U{a0}'
      || c == '\U{1680}'
      || '\U{2000}' <= c <= '\U{200a}'
      || c == '\U{2028}' || c == '\U{2029}'
      || c == '\U{202f}' || c == '\U{205f}'
      || c == '\U{3000}'
  }

  predicate IsLower(c: char) { 'a' <= c <= 'z' }

  /** Occurrences of `c` in `s`. */
  function Count(s: string, c: char): nat {
    multiset(s)[c]
  }

  /** The number of white-space characters `s` opens with. */
  function LeadingSpaces(s: string): (n: nat)
    ensures n <= |s|
    ensures forall k :: 0 <= k < n ==> IsSpace(s[k])
    ensures n == |s| || !IsSpace(s[n])
  {
    if s != [] && IsSpace(s[0]) then 1 + LeadingSpaces(s[1..]) else 0
  }

  /** The number of white-space characters `s` closes with. */
  function TrailingSpaces(s: string): (n: nat)
    ensures n <= |s|
    ensures forall k :: |s| - n <= k < |s| ==> IsSpace(s[k])
    ensures n == |s| || !IsSpace(s[|s| - n - 1])
  {
    if s != [] && IsSpace(s[|s| - 1]) then 1 + TrailingSpaces(s[..|s| - 1]) else 0
  }

  /** `str.lstrip()` */
  function LStrip(s: string): string {
    s[LeadingSpaces(s)..]
  }

  /** `str.rstrip()` */
  function RStrip(s: string): string {
    s[..|s| - TrailingSpaces(s)]
  }

  /** `str.strip()` */
  function Strip(s: string): (r: string)
    ensures r == [] || (!IsSpace(r[0]) && !IsSpace(r[|r| - 1]))
  {
    var l := LStrip(s);
    var r := RStrip(l);
    assert r != [] ==> r[0] == l[0] && r[|r| - 1] == l[|l| - TrailingSpaces(l) - 1];
    r
  }

  /** What `strip()` removes is white space at either end, and nothing else. */
  lemma StripIsSlice(s: string) returns (i: nat, j: nat)
    ensures i <= j <= |s| && Strip(s) == s[i..j]
    ensures forall k :: 0 <= k < i ==> IsSpace(s[k])
    ensures forall k :: j <= k < |s| ==> IsSpace(s[k])
  {
    i := LeadingSpaces(s);
    var l := s[i..];
    var m := TrailingSpaces(l);
    j := |s| - m;
    assert Strip(s) == s[i..j];
    forall k | j <= k < |s| ensures IsSpace(s[k]) {
      assert s[k] == l[k - i];
    }
  }

  /** Stripping keeps every character that is not white space. */
  lemma StripKeepsCount(s: string, c: char)
    requires !IsSpace(c)
    ensures Count(Strip(s), c) == Count(s, c)
  {
    var i, j := StripIsSlice(s);
    CountSplit(s, i, j, c);
    SpacesLack(s, 0, i, c);
    SpacesLack(s, j, |s|, c);
  }

  /** Cutting a string in three parts splits its count. */
  lemma CountSplit(s: string, i: nat, j: nat, c: char)
    requires i <= j <= |s|
    ensures Count(s, c) == Count(s[0..i], c) + Count(s[i..j], c) + Count(s[j..|s|], c)
  {
    assert s == s[0..i] + s[i..j] + s[j..|s|];
  }

  /** A run of white space holds no character that is not white space. */
  lemma SpacesLack(s: string, lo: nat, hi: nat, c: char)
    requires lo <= hi <= |s|
    requires forall k :: lo <= k < hi ==> IsSpace(s[k])
    requires !IsSpace(c)
    ensures Count(s[lo..hi], c) == 0
  {
    forall k | 0 <= k < hi - lo ensures s[lo..hi][k] != c {
      assert s[lo..hi][k] == s[lo + k];
    }
  }

  /** A string without white space at either end is its own strip. */
  lemma StripTrimmed(s: string)
    requires s == [] || (!IsSpace(s[0]) && !IsSpace(s[|s| - 1]))
    ensures Strip(s) == s
  {
    assert LeadingSpaces(s) == 0;
    assert TrailingSpaces(s) == 0;
  }

  function UpperChar(c: char): char {
    if IsLower(c) then (c as int - 32) as char else c
  }

  /** `str.upper()` on the ASCII letters. */
  function Upper(s: string): (r: string)
    ensures |r| == |s|
    ensures forall k :: 0 <= k < |s| ==> r[k] == UpperChar(s[k])
  {
    if s == [] then [] else Upper(s[..|s| - 1]) + [UpperChar(s[|s| - 1])]
  }

  /** Upper-casing leaves no lower-case letter, changes nothing else, keeps
      white space where it was, and a second application changes nothing. */
  lemma UpperProperties(s: string)
    ensures forall k :: 0 <= k < |s| ==> !IsLower(Upper(s)[k])
    ensures forall k :: 0 <= k < |s| && !IsLower(s[k]) ==> Upper(s)[k] == s[k]
    ensures forall k :: 0 <= k < |s| ==> (IsSpace(Upper(s)[k]) <==> IsSpace(s[k]))
    ensures Upper(Upper(s)) == Upper(s)
  {
    forall k | 0 <= k < |s| ensures IsSpace(Upper(s)[k]) <==> IsSpace(s[k]) {
      UpperCharSpace(s[k]);
    }
  }

  /** Upper-casing one character neither makes nor removes white space. */
  lemma UpperCharSpace(c: char)
    ensures IsSpace(UpperChar(c)) <==> IsSpace(c)
  {
  }

  /** Upper-casing keeps every character that is not an ASCII letter. */
  lemma {:induction false} UpperKeepsCount(s: string, c: char)
    requires !IsLower(c) && !('A' <= c <= 'Z')
    ensures Count(Upper(s), c) == Count(s, c)
  {
    if s != [] {
      var init := s[..|s| - 1];
      var x := s[|s| - 1];
      UpperKeepsCount(init, c);
      assert s == init + [x];
      CountSnoc(init, x, c);
      assert Upper(s) == Upper(init) + [UpperChar(x)];
      CountSnoc(Upper(init), UpperChar(x), c);
    }
  }

  /** One more character adds one to its own count. */
  lemma CountSnoc(s: string, x: char, c: char)
    ensures Count(s + [x], c) == Count(s, c) + (if x == c then 1 else 0)
  {
    assert multiset(s + [x]) == multiset(s) + multiset{x};
  }

  /** `str.split(sep)` with a one-character separator. */
  function Split(s: string, sep: char): (parts: seq<string>)
    ensures parts != []
  {
    if s == [] then [[]]
    else
      var init := Split(s[..|s| - 1], sep);
      var c := s[|s| - 1];
      if c == sep then init + [[]]
      else init[..|init| - 1] + [init[|init| - 1] + [c]]
  }

  /** One more character either starts a new piece or extends the last one. */
  lemma SplitSnoc(s: string, c: char, sep: char)
    ensures var p := Split(s, sep);
      Split(s + [c], sep) ==
        if c == sep then p + [[]] else p[..|p| - 1] + [p[|p| - 1] + [c]]
  {
    assert (s + [c])[..|s|] == s;
  }

  /** `split` gives one more piece than there are separators, and no piece
      holds a separator. */
  lemma {:induction false} SplitPieces(s: string, sep: char)
    ensures |Split(s, sep)| == Count(s, sep) + 1
    ensures forall p :: p in Split(s, sep) ==> sep !in p
  {
    if s != [] {
      var init := s[..|s| - 1];
      var c := s[|s| - 1];
      SplitPieces(init, sep);
      SplitSnoc(init, c, sep);
      assert s == init + [c];
      var p := Split(init, sep);
      if c != sep {
        assert p[|p| - 1] in p;
        forall q | q in Split(s, sep) ensures sep !in q {
          if q != p[|p| - 1] + [c] {
            assert q in p[..|p| - 1];
          }
        }
      }
    }
  }

  /** `sep.join(parts)` */
  function Join(parts: seq<string>, sep: char): string
    requires parts != []
  {
    if |parts| == 1 then parts[0]
    else Join(parts[..|parts| - 1], sep) + [sep] + parts[|parts| - 1]
  }

  /** Joining the pieces of a split gives back the string. */
  lemma {:induction false} JoinSplit(s: string, sep: char)
    ensures Join(Split(s, sep), sep) == s
  {
    if s != [] {
      var init := s[..|s| - 1];
      var c := s[|s| - 1];
      JoinSplit(init, sep);
      SplitSnoc(init, c, sep);
      assert s == init + [c];
      if c == sep {
        JoinNewPiece(Split(init, sep), sep);
      } else {
        JoinExtendLast(Split(init, sep), c, sep);
      }
    }
  }

  /** Joining one more, empty, piece appends a separator. */
  lemma JoinNewPiece(p: seq<string>, sep: char)
    requires p != []
    ensures Join(p + [[]], sep) == Join(p, sep) + [sep]
  {
    assert (p + [[]])[..|p|] == p;
  }

  /** Extending the last piece extends the join. */
  lemma JoinExtendLast(p: seq<string>, c: char, sep: char)
    requires p != []
    ensures Join(p[..|p| - 1] + [p[|p| - 1] + [c]], sep) == Join(p, sep) + [c]
  {
    var q := p[..|p| - 1] + [p[|p| - 1] + [c]];
    if |p| > 1 {
      assert q[..|q| - 1] == p[..|p| - 1];
    }
  }

  /** Appending a separator and a separator-free tail appends one piece. */
  lemma SplitAppend(x: string, sep: char, tail: string)
    requires sep !in tail
    ensures Split(x + [sep] + tail, sep) == Split(x, sep) + [tail]
  {
    var y := x + [sep];
    SplitSnoc(x, sep, sep);
    SplitExtend(y, sep, tail);
    var p := Split(y, sep);
    assert p[..|p| - 1] == Split(x, sep);
    assert p[|p| - 1] + tail == tail;
  }

  /** Appending a separator-free tail extends the last piece. */
  lemma {:induction false} SplitExtend(y: string, sep: char, tail: string)
    requires sep !in tail
    ensures var p := Split(y, sep);
      Split(y + tail, sep) == p[..|p| - 1] + [p[|p| - 1] + tail]
    decreases |tail|
  {
    if tail == [] {
      var p := Split(y, sep);
      assert y + tail == y;
      assert p[|p| - 1] + tail == p[|p| - 1];
      assert p == p[..|p| - 1] + [p[|p| - 1]];
    } else {
      var t := tail[..|tail| - 1];
      var c := tail[|tail| - 1];
      assert c in tail && t + [c] == tail;
      SplitExtend(y, sep, t);
      SplitExtendStep(y, sep, t, c);
    }
  }

  /** One step of `SplitExtend`: a character that is not the separator
      extends the last piece. */
  lemma SplitExtendStep(y: string, sep: char, t: string, c: char)
    requires c != sep
    requires var p := Split(y, sep);
      Split(y + t, sep) == p[..|p| - 1] + [p[|p| - 1] + t]
    ensures var p := Split(y, sep);
      Split(y + (t + [c]), sep) == p[..|p| - 1] + [p[|p| - 1] + (t + [c])]
  {
    SplitSnoc(y + t, c, sep);
    assert y + (t + [c]) == (y + t) + [c];
    ExtendLast(Split(y, sep), t, c);
  }

  /** Extending the last piece of a piece list twice. */
  lemma ExtendLast(p: seq<string>, t: string, c: char)
    requires p != []
    ensures var q := p[..|p| - 1] + [p[|p| - 1] + t];
      q[..|q| - 1] + [q[|q| - 1] + [c]] == p[..|p| - 1] + [p[|p| - 1] + (t + [c])]
  {
    var q := p[..|p| - 1] + [p[|p| - 1] + t];
    assert q[..|q| - 1] == p[..|p| - 1];
    assert q[|q| - 1] + [c] == p[|p| - 1] + (t + [c]);
  }

  /** Splitting a join of separator-free pieces gives back the pieces. */
  lemma {:induction false} SplitJoin(parts: seq<string>, sep: char)
    requires parts != []
    requires forall p :: p in parts ==> sep !in p
    ensures Split(Join(parts, sep), sep) == parts
  {
    if |parts| == 1 {
      SplitAppendFree(parts[0], sep);
    } else {
      var init := parts[..|parts| - 1];
      SplitJoin(init, sep);
      SplitAppend(Join(init, sep), sep, parts[|parts| - 1]);
      assert parts == init + [parts[|parts| - 1]];
    }
  }

  /** A separator-free string splits into itself. */
  lemma SplitAppendFree(s: string, sep: char)
    requires sep !in s
    ensures Split(s, sep) == [s]
  {
    SplitExtend([], sep, s);
    assert [] + s == s;
  }
}
