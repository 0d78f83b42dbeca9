/** String primitives with the semantics of the Python built-ins the tools use. */
module Text {

  /** One code point that CPython's `str.isspace` (and hence `str.strip()`) treats as whitespace. */
  predicate IsSpace(c: char) {
    ('\t' <= c <= '\r') || ('\U{1C}' <= c <= ' ') || c == '\U{85}' || c == '\U{A0}'
    || c == '\U{1680}' || ('\U{2000}' <= c <= '\U{200A}') || c == '\U{2028}'
    || c == '\U{2029}' || c == '\U{202F}' || c == '\U{205F}' || c == '\U{3000}'
  }

  /** `not s.strip()`: the string is empty or whitespace only. */
  predicate IsBlank(s: string) {
    forall i :: 0 <= i < |s| ==> IsSpace(s[i])
  }

  predicate EndsWith(s: string, suffix: string) {
    |suffix| <= |s| && s[|s| - |suffix|..] == suffix
  }

  predicate StartsWith(s: string, prefix: string) {
    |prefix| <= |s| && s[..|prefix|] == prefix
  }

  /** Python `s.lstrip()`. */
  function TrimStart(s: string): (r: string)
    ensures |r| <= |s| && r == s[|s| - |r|..]
    ensures IsBlank(s[..|s| - |r|])
    ensures r != [] ==> !IsSpace(r[0])
    decreases |s|
  {
    if s != [] && IsSpace(s[0]) then
      var r := TrimStart(s[1..]);
      assert s[..|s| - |r|] == [s[0]] + s[1..][..|s| - 1 - |r|];
      r
    else s
  }

  /** Python `s.rstrip()`. */
  function TrimEnd(s: string): (r: string)
    ensures |r| <= |s| && r == s[..|r|]
    ensures IsBlank(s[|r|..])
    ensures r != [] ==> !IsSpace(r[|r| - 1])
    decreases |s|
  {
    if s != [] && IsSpace(s[|s| - 1]) then
      var r := TrimEnd(s[..|s| - 1]);
      assert s[|r|..] == s[..|s| - 1][|r|..] + [s[|s| - 1]];
      r
    else s
  }

  lemma BlankConcat(a: string, b: string)
    ensures IsBlank(a + b) <==> IsBlank(a) && IsBlank(b)
  {
    if IsBlank(a) && IsBlank(b) {
      forall i | 0 <= i < |a + b| ensures IsSpace((a + b)[i]) {
        if i >= |a| { assert (a + b)[i] == b[i - |a|]; }
      }
    }
    if IsBlank(a + b) {
      forall i | 0 <= i < |a| ensures IsSpace(a[i]) {
        assert (a + b)[i] == a[i];
      }
      forall i | 0 <= i < |b| ensures IsSpace(b[i]) {
        assert (a + b)[|a| + i] == b[i];
      }
    }
  }

  /** Python `s.strip()`: the infix left after removing whitespace at both ends. */
  function Strip(s: string): (r: string)
    ensures r == [] <==> IsBlank(s)
    ensures r != [] ==> !IsSpace(r[0]) && !IsSpace(r[|r| - 1])
    ensures |r| <= |s|
    ensures exists t ::
      (|t| <= |s| && t == s[|s| - |t|..] && IsBlank(s[..|s| - |t|]) &&
       |r| <= |t| && r == t[..|r|] && IsBlank(t[|r|..]))
  {
    var t := TrimStart(s);
    var r := TrimEnd(t);
    StripEnds(t, r);
    StripBlank(s, t, r);
    r
  }

  lemma StripEnds(t: string, r: string)
    requires |r| <= |t| && r == t[..|r|] && (t != [] ==> !IsSpace(t[0]))
    requires r != [] ==> !IsSpace(r[|r| - 1])
    ensures r != [] ==> !IsSpace(r[0]) && !IsSpace(r[|r| - 1])
  {
    if r != [] {
      assert r[0] == t[0];
    }
  }

  lemma {:induction false} TrimStartBlank(s: string)
    requires IsBlank(s)
    ensures TrimStart(s) == []
    decreases |s|
  {
    if s != [] {
      TrimStartBlank(s[1..]);
    }
  }

  lemma StripBlank(s: string, t: string, r: string)
    requires t == TrimStart(s) && r == TrimEnd(t)
    ensures r == [] <==> IsBlank(s)
  {
    if IsBlank(s) {
      TrimStartBlank(s);
    }
    if r == [] {
      StripEmpty(s, t);
    }
  }

  lemma StripEmpty(s: string, t: string)
    requires t == TrimStart(s) && TrimEnd(t) == []
    ensures IsBlank(s)
  {
    var k := |s| - |t|;
    assert s == s[..k] + t;
    assert t[0..] == t;
    BlankConcat(s[..k], t);
  }

  function LowerChar(c: char): char {
    if 'A' <= c <= 'Z' then (c as int + 32) as char else c
  }

  /** Python `s.lower()` restricted to ASCII letters. */
  function Lower(s: string): (r: string)
    ensures |r| == |s|
    ensures forall i :: 0 <= i < |s| ==> r[i] == LowerChar(s[i])
  {
    if s == [] then [] else [LowerChar(s[0])] + Lower(s[1..])
  }

  predicate NoUpper(s: string) {
    forall i :: 0 <= i < |s| ==> !('A' <= s[i] <= 'Z')
  }

  function UpperChar(c: char): char {
    if 'a' <= c <= 'z' then (c as int - 32) as char else c
  }

  /** ASCII upper-casing, used to state case-insensitivity. */
  function Upper(s: string): (r: string)
    ensures |r| == |s| && forall i :: 0 <= i < |s| ==> r[i] == UpperChar(s[i])
  {
    if s == [] then [] else [UpperChar(s[0])] + Upper(s[1..])
  }

  lemma LowerUpper(s: string)
    requires NoUpper(s)
    ensures Lower(Upper(s)) == s
  {
    assert forall i :: 0 <= i < |s| ==> LowerChar(UpperChar(s[i])) == s[i];
  }

  /** Python `sep.join(parts)`. */
  function Join(parts: seq<string>, sep: string): string
    decreases |parts|
  {
    if |parts| == 0 then ""
    else if |parts| == 1 then parts[0]
    else parts[0] + sep + Join(parts[1..], sep)
  }

  /** `Join` of four pieces, spelled out. */
  lemma JoinFour(a: string, b: string, c: string, d: string, sep: string)
    ensures Join([a, b, c, d], sep) == a + sep + (b + sep + (c + sep + d))
  {
    assert [c, d][1..] == [d];
    assert Join([c, d], sep) == c + sep + d;
    assert [b, c, d][1..] == [c, d];
    assert Join([b, c, d], sep) == b + sep + (c + sep + d);
    assert [a, b, c, d][1..] == [b, c, d];
  }

  /** Python `s.split(c)` for a one-character separator: never empty, keeps empty pieces. */
  function SplitOn(s: string, c: char): (r: seq<string>)
    ensures |r| >= 1
    decreases |s|
  {
    if s == [] then [""]
    else
      var rest := SplitOn(s[1..], c);
      if s[0] == c then [""] + rest
      else [[s[0]] + rest[0]] + rest[1..]
  }

  /** Python `s.split(pat)[0]`: everything before the first occurrence of `pat`. */
  function BeforeFirst(s: string, pat: string): (r: string)
    requires pat != ""
    ensures StartsWith(s, r)
    ensures forall j :: 0 <= j < |r| ==> !StartsWith(s[j..], pat)
    ensures r == s || StartsWith(s[|r|..], pat)
    decreases |s|
  {
    if StartsWith(s, pat) then ""
    else if s == [] then ""
    else
      var r := [s[0]] + BeforeFirst(s[1..], pat);
      assert forall j :: 1 <= j < |r| ==> s[j..] == s[1..][j - 1..];
      r
  }

  // ---- Properties of Join and SplitOn -------------------------------------------------

  /** No piece produced by `SplitOn` contains the separator. */
  lemma {:induction false} SplitOnPieces(s: string, c: char)
    ensures forall i :: 0 <= i < |SplitOn(s, c)| ==> c !in SplitOn(s, c)[i]
    decreases |s|
  {
    if s != [] {
      SplitOnPieces(s[1..], c);
    }
  }

  /** Splitting and re-joining with the same character gives back the string. */
  lemma {:induction false} JoinSplitOn(s: string, c: char)
    ensures Join(SplitOn(s, c), [c]) == s
    decreases |s|
  {
    if s != [] {
      var rest := SplitOn(s[1..], c);
      JoinSplitOn(s[1..], c);
      if s[0] == c {
        assert SplitOn(s, c) == [""] + rest;
        assert ([""] + rest)[1..] == rest;
      } else {
        var r := SplitOn(s, c);
        assert r == [[s[0]] + rest[0]] + rest[1..];
        if |rest| == 1 {
          assert r == [[s[0]] + rest[0]];
        } else {
          assert r[1..] == rest[1..];
          assert Join(rest, [c]) == rest[0] + [c] + Join(rest[1..], [c]);
        }
      }
    }
  }

  /** A string without the separator splits into itself alone. */
  lemma {:induction false} SplitOnAtom(s: string, c: char)
    requires c !in s
    ensures SplitOn(s, c) == [s]
    decreases |s|
  {
    if s != [] {
      SplitOnAtom(s[1..], c);
      assert [s[0]] + s[1..] == s;
    }
  }

  /** Splitting at one separator occurrence splits the pieces on either side. */
  lemma {:induction false} SplitOnAt(x: string, c: char, y: string)
    requires c !in x
    ensures SplitOn(x + [c] + y, c) == [x] + SplitOn(y, c)
    decreases |x|
  {
    if x == [] {
      assert x + [c] + y == [c] + y;
      assert ([c] + y)[1..] == y;
    } else {
      assert (x + [c] + y)[1..] == x[1..] + [c] + y;
      SplitOnAt(x[1..], c, y);
      assert [x[0]] + x[1..] == x;
    }
  }

  /** Joining pieces that do not contain the separator and splitting again gives the pieces back. */
  lemma {:induction false} SplitOnJoin(parts: seq<string>, c: char)
    requires |parts| >= 1
    requires forall i :: 0 <= i < |parts| ==> c !in parts[i]
    ensures SplitOn(Join(parts, [c]), c) == parts
    decreases |parts|
  {
    if |parts| == 1 {
      SplitOnAtom(parts[0], c);
    } else {
      SplitOnJoin(parts[1..], c);
      SplitOnAt(parts[0], c, Join(parts[1..], [c]));
      assert [parts[0]] + parts[1..] == parts;
    }
  }

  /** Where piece `i` starts inside `Join(parts, sep)`. */
  function JoinOffset(parts: seq<string>, sep: string, i: nat): nat
    requires i <= |parts|
  {
    if i == 0 then 0 else JoinOffset(parts, sep, i - 1) + |parts[i - 1]| + |sep|
  }

  lemma {:induction false} JoinOffsetTail(parts: seq<string>, sep: string, i: nat)
    requires 1 <= i <= |parts|
    ensures JoinOffset(parts, sep, i) == |parts[0]| + |sep| + JoinOffset(parts[1..], sep, i - 1)
  {
    if i > 1 {
      JoinOffsetTail(parts, sep, i - 1);
    }
  }

  lemma SliceAfter(x: string, y: string, a: nat, b: nat)
    requires a <= b <= |y|
    ensures (x + y)[|x| + a..|x| + b] == y[a..b]
  {
  }

  /** `Join` lays the pieces out in order: piece `i` sits at `JoinOffset(parts, sep, i)`,
      followed by the separator unless it is the last one. */
  lemma JoinAt(parts: seq<string>, sep: string, i: nat)
    requires i < |parts|
    ensures JoinOffset(parts, sep, i) + |parts[i]| <= |Join(parts, sep)|
    ensures Join(parts, sep)[JoinOffset(parts, sep, i)..JoinOffset(parts, sep, i) + |parts[i]|] == parts[i]
    ensures i + 1 < |parts| ==>
      JoinOffset(parts, sep, i + 1) <= |Join(parts, sep)| &&
      Join(parts, sep)[JoinOffset(parts, sep, i) + |parts[i]|..JoinOffset(parts, sep, i + 1)] == sep
  {
    JoinPieceAt(parts, sep, i);
    if i + 1 < |parts| {
      JoinSepAt(parts, sep, i);
    }
  }

  /** `piece` sits in `a` at offset `o`, followed there by `sep` when `followed` holds. */
  predicate Placed(a: string, o: nat, piece: string, sep: string, followed: bool) {
    o + |piece| <= |a| && a[o..o + |piece|] == piece &&
    (followed ==> o + |piece| + |sep| <= |a| && a[o + |piece|..o + |piece| + |sep|] == sep)
  }

  /** In `head + Join(parts, sep) + tail`, piece `i` sits at `|head|` plus its join offset,
      followed by the separator unless it is the last one. */
  lemma JoinFramed(head: string, parts: seq<string>, sep: string, tail: string, i: nat)
    requires i < |parts|
    ensures Placed(head + Join(parts, sep) + tail, |head| + JoinOffset(parts, sep, i), parts[i], sep,
                   i + 1 < |parts|)
  {
    JoinPlaced(parts, sep, i);
    PieceFramed(head, Join(parts, sep), tail, JoinOffset(parts, sep, i), parts[i], sep, i + 1 < |parts|);
  }

  /** `JoinAt`, stated with `Placed`. */
  lemma JoinPlaced(parts: seq<string>, sep: string, i: nat)
    requires i < |parts|
    ensures Placed(Join(parts, sep), JoinOffset(parts, sep, i), parts[i], sep, i + 1 < |parts|)
  {
    JoinAt(parts, sep, i);
    if i + 1 < |parts| {
      assert JoinOffset(parts, sep, i + 1) == JoinOffset(parts, sep, i) + |parts[i]| + |sep|;
    }
  }

  /** A piece of `body`, possibly followed by a separator, keeps its place, shifted by
      `|head|`, in `head + body + tail`. */
  lemma PieceFramed(head: string, body: string, tail: string, j: nat, piece: string, sep: string,
                    followed: bool)
    requires Placed(body, j, piece, sep, followed)
    ensures Placed(head + body + tail, |head| + j, piece, sep, followed)
  {
    Framed(head, body, tail, j, j + |piece|);
    if followed {
      Framed(head, body, tail, j + |piece|, j + |piece| + |sep|);
    }
  }

  /** Slices of the middle part of `head + body + tail`. */
  lemma Framed(head: string, body: string, tail: string, j: nat, k: nat)
    requires j <= k <= |body|
    ensures var a := head + body + tail;
      StartsWith(a, head) && EndsWith(a, tail) && a[|head| + j..|head| + k] == body[j..k]
  {
    var a := head + body + tail;
    assert a[..|head|] == head;
    assert a[|a| - |tail|..] == tail;
    assert a[|head| + j..|head| + k] == body[j..k];
  }

  lemma {:induction false} JoinPieceAt(parts: seq<string>, sep: string, i: nat)
    requires i < |parts|
    ensures JoinOffset(parts, sep, i) + |parts[i]| <= |Join(parts, sep)|
    ensures Join(parts, sep)[JoinOffset(parts, sep, i)..JoinOffset(parts, sep, i) + |parts[i]|] == parts[i]
    decreases |parts|
  {
    if |parts| > 1 {
      var tail := Join(parts[1..], sep);
      var head := parts[0] + sep;
      assert Join(parts, sep) == head + tail;
      if i == 0 {
        assert (parts[0] + (sep + tail))[..|parts[0]|] == parts[0];
        assert head + tail == parts[0] + (sep + tail);
      } else {
        JoinPieceAt(parts[1..], sep, i - 1);
        JoinOffsetTail(parts, sep, i);
        var o := JoinOffset(parts[1..], sep, i - 1);
        assert parts[1..][i - 1] == parts[i];
        SliceAfter(head, tail, o, o + |parts[i]|);
      }
    }
  }

  lemma {:induction false} JoinSepAt(parts: seq<string>, sep: string, i: nat)
    requires i + 1 < |parts|
    ensures JoinOffset(parts, sep, i + 1) <= |Join(parts, sep)|
    ensures Join(parts, sep)[JoinOffset(parts, sep, i) + |parts[i]|..JoinOffset(parts, sep, i + 1)] == sep
    decreases |parts|
  {
    var tail := Join(parts[1..], sep);
    var head := parts[0] + sep;
    assert Join(parts, sep) == head + tail;
    if i == 0 {
      assert JoinOffset(parts, sep, 1) == |parts[0]| + |sep|;
    } else {
      JoinSepAt(parts[1..], sep, i - 1);
      JoinOffsetTail(parts, sep, i);
      JoinOffsetTail(parts, sep, i + 1);
      var o := JoinOffset(parts[1..], sep, i - 1);
      assert parts[1..][i - 1] == parts[i];
      SliceAfter(head, tail, o + |parts[i]|, JoinOffset(parts[1..], sep, i));
    }
  }
}
