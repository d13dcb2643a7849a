/**
 Python's `str.split(sep)`, the leftmost search it performs, and
 `sep.join(parts)` over strings, written out so that their behaviour can be stated and proved: `Split` cuts a
 string at the leftmost, non-overlapping occurrences of a non-empty separator,
 scanning left to right, and `Join` glues the parts back with the separator.
 */
module Text {

  /** `pat` occurs in `s` starting at index `i`. */
  predicate OccursAt(s: string, pat: string, i: int) {
    0 <= i && i + |pat| <= |s| && s[i..i + |pat|] == pat
  }

  /** `pat` occurs somewhere in `s` (Python's `pat in s`). */
  ghost predicate Contains(s: string, pat: string) {
    exists i :: OccursAt(s, pat, i)
  }

  /**
   The leftmost search `str.split` performs for its next separator (what
   Python's `s.find(pat)` returns): an index at which `pat` occurs, or -1. That it is
   the leftmost one, and that -1 means no occurrence at all, is `FindFirst`.
   */
  function Find(s: string, pat: string): (r: int)
    ensures -1 <= r <= |s|
    ensures r >= 0 ==> OccursAt(s, pat, r)
  {
    FindFrom(s, pat, 0)
  }

  /** The scan behind `Find`, starting at index `i`. */
  function FindFrom(s: string, pat: string, i: nat): (r: int)
    ensures r == -1 || i <= r <= |s|
    ensures r >= 0 ==> OccursAt(s, pat, r)
    decreases |s| - i
  {
    if i + |pat| > |s| then -1
    else if s[i..i + |pat|] == pat then i
    else FindFrom(s, pat, i + 1)
  }

  /** The scan stops at the first occurrence from `i` on, and reports -1 only when there is none. */
  lemma {:induction false} FindFromFirst(s: string, pat: string, i: nat)
    ensures FindFrom(s, pat, i) >= 0 ==> forall j :: i <= j < FindFrom(s, pat, i) ==> !OccursAt(s, pat, j)
    ensures FindFrom(s, pat, i) == -1 ==> forall j :: i <= j ==> !OccursAt(s, pat, j)
    decreases |s| - i
  {
    if i + |pat| <= |s| && s[i..i + |pat|] != pat {
      FindFromFirst(s, pat, i + 1);
    }
  }

  /** `Find` reports the leftmost occurrence, and -1 exactly when `pat` does not occur. */
  lemma FindFirst(s: string, pat: string)
    ensures Find(s, pat) >= 0 ==> forall j :: 0 <= j < Find(s, pat) ==> !OccursAt(s, pat, j)
    ensures Find(s, pat) == -1 <==> !Contains(s, pat)
  {
    FindFromFirst(s, pat, 0);
  }

  /** The leftmost occurrence is the one `Find` reports. */
  lemma FindLeftmost(s: string, pat: string, k: int)
    requires OccursAt(s, pat, k)
    requires forall j :: 0 <= j < k ==> !OccursAt(s, pat, j)
    ensures Find(s, pat) == k
  {
    FindFirst(s, pat);
  }

  /** An occurrence starts with the pattern's first character. */
  lemma OccursAtHead(s: string, pat: string, j: int)
    ensures OccursAt(s, pat, j) && pat != [] ==> s[j] == pat[0]
  {
    if OccursAt(s, pat, j) && pat != [] {
      assert s[j..j + |pat|][0] == s[j];
    }
  }

  /** An occurrence inside a prefix of `s` is an occurrence in `s`. */
  lemma OccursInPrefix(t: string, s: string, pat: string, j: int)
    requires t <= s
    requires OccursAt(t, pat, j)
    ensures OccursAt(s, pat, j)
  {
    assert t[j..j + |pat|] == s[j..j + |pat|];
  }

  /** For a one-character pattern, an occurrence is just that character at that index. */
  lemma OccursAtChar(s: string, c: char, j: int)
    ensures OccursAt(s, [c], j) <==> 0 <= j < |s| && s[j] == c
  {
    if 0 <= j < |s| {
      assert s[j..j + 1] == [s[j]];
    }
  }

  /** `Find` of a one-character pattern reports the index of the first occurrence of that character. */
  lemma FindChar(s: string, c: char)
    ensures Find(s, [c]) == -1 <==> c !in s
    ensures Find(s, [c]) >= 0 ==> Find(s, [c]) < |s| && s[Find(s, [c])] == c && c !in s[..Find(s, [c])]
  {
    FindFirst(s, [c]);
    var k := Find(s, [c]);
    if k >= 0 {
      OccursAtChar(s, c, k);
      forall j | 0 <= j < k ensures s[..k][j] != c {
        OccursAtChar(s, c, j);
      }
    } else {
      forall j | 0 <= j < |s| ensures s[j] != c {
        OccursAtChar(s, c, j);
      }
    }
    if c in s {
      var j :| 0 <= j < |s| && s[j] == c;
      OccursAtChar(s, c, j);
    }
  }

  /** The first occurrence of a character is where `Find` stops. */
  lemma FindCharAt(s: string, c: char, k: int)
    requires 0 <= k < |s| && s[k] == c
    requires c !in s[..k]
    ensures Find(s, [c]) == k
  {
    OccursAtChar(s, c, k);
    forall j | 0 <= j < k ensures !OccursAt(s, [c], j) {
      OccursAtChar(s, c, j);
      assert s[..k][j] == s[j];
    }
    FindLeftmost(s, [c], k);
  }

  /** Python's `sep.join(parts)`. */
  function Join(parts: seq<string>, sep: string): (r: string)
    ensures |parts| == 0 ==> r == []
    ensures |parts| == 1 ==> r == parts[0]
  {
    if |parts| == 0 then []
    else if |parts| == 1 then parts[0]
    else parts[0] + sep + Join(parts[1..], sep)
  }

  /** The concatenation of all parts, with nothing in between. */
  function Concat(parts: seq<string>): string {
    if parts == [] then [] else parts[0] + Concat(parts[1..])
  }

  /**
   The separator that ends `f` in `f + sep` is the leftmost occurrence of
   `sep` there: no occurrence starts inside `f`, not even one that overlaps
   into the separator.
   */
  predicate EndsAtFirstSeparator(f: string, sep: string) {
    Find(f + sep, sep) == |f|
  }

  /**
   Python's `s.split(sep)` for a non-empty separator: the text before the
   leftmost separator, then the split of the text after it; the whole string
   when the separator does not occur. `JoinSplit` and `SplitLeftmost` state
   what the parts are.
   */
  function Split(s: string, sep: string): (parts: seq<string>)
    requires sep != []
    ensures |parts| >= 1
    decreases |s|
  {
    var k := Find(s, sep);
    if k < 0 then [s] else [s[..k]] + Split(s[k + |sep|..], sep)
  }

  /**
   `Join` undoes `Split`: the parts glued back with the separator give the
   string again, the Python round trip `sep.join(s.split(sep)) == s`.
   */
  lemma {:induction false} JoinSplit(s: string, sep: string)
    requires sep != []
    ensures Join(Split(s, sep), sep) == s
    decreases |s|
  {
    var k := Find(s, sep);
    if k >= 0 {
      var tail := s[k + |sep|..];
      JoinSplit(tail, sep);
      SplitStep(s, sep, k);
      SplitUnfold(s, sep);
      JoinCons(s[..k], Split(tail, sep), sep);
    }
  }

  /** The first part cut off by `Split` ends at the leftmost separator and glues back. */
  lemma SplitStep(s: string, sep: string, k: int)
    requires sep != []
    requires k == Find(s, sep) && k >= 0
    ensures k + |sep| <= |s|
    ensures s[..k] + sep + s[k + |sep|..] == s
    ensures EndsAtFirstSeparator(s[..k], sep)
  {
    FindFirst(s, sep);
    assert s[..k] + sep == s[..k + |sep|];
    FirstSeparatorEnds(s, sep, k);
  }

  /** The text before the leftmost separator, with that separator appended, has it as its first occurrence. */
  lemma FirstSeparatorEnds(s: string, sep: string, k: int)
    requires 0 <= k && OccursAt(s, sep, k)
    requires forall j :: 0 <= j < k ==> !OccursAt(s, sep, j)
    ensures EndsAtFirstSeparator(s[..k], sep)
  {
    var t := s[..k] + sep;
    assert t == s[..k + |sep|];
    assert OccursAt(t, sep, k) by { assert t[k..k + |sep|] == sep; }
    forall j | 0 <= j < k ensures !OccursAt(t, sep, j) {
      if OccursAt(t, sep, j) {
        OccursInPrefix(t, s, sep, j);
        assert false;
      }
    }
    FindLeftmost(t, sep, k);
  }

  /** One step of `Split`: cut at the leftmost separator and split the rest. */
  lemma SplitUnfold(s: string, sep: string)
    requires sep != []
    requires Find(s, sep) >= 0
    ensures Find(s, sep) + |sep| <= |s|
    ensures Split(s, sep) == [s[..Find(s, sep)]] + Split(s[Find(s, sep) + |sep|..], sep)
  {
  }

  /** A string without the separator is split into itself alone. */
  lemma SplitWhole(s: string, sep: string)
    requires sep != []
    requires !Contains(s, sep)
    ensures Split(s, sep) == [s]
  {
  }

  /** `Join` of a part followed by more parts. */
  lemma JoinCons(f: string, rest: seq<string>, sep: string)
    requires rest != []
    ensures Join([f] + rest, sep) == f + sep + Join(rest, sep)
  {
    assert ([f] + rest)[1..] == rest;
  }

  /** A part followed by its separator and anything else is cut off at exactly that separator. */
  lemma FindAfterPart(f: string, sep: string, tail: string)
    requires sep != []
    requires EndsAtFirstSeparator(f, sep)
    ensures Find(f + sep + tail, sep) == |f|
  {
    var s := f + sep + tail;
    FindFirst(f + sep, sep);
    assert f + sep <= s;
    assert OccursAt(f + sep, sep, |f|);
    OccursInPrefix(f + sep, s, sep, |f|);
    forall j | 0 <= j < |f| ensures !OccursAt(s, sep, j) {
      if OccursAt(s, sep, j) {
        assert s[j..j + |sep|] == (f + sep)[j..j + |sep|];
        assert OccursAt(f + sep, sep, j);
        assert false;
      }
    }
    FindLeftmost(s, sep, |f|);
  }

  /**
   `Split` undoes `Join`: parts that each end at the leftmost separator, with a
   last part free of separators, are recovered exactly.
   */
  lemma {:induction false} SplitJoin(parts: seq<string>, sep: string)
    requires sep != []
    requires |parts| >= 1
    requires forall i :: 0 <= i < |parts| - 1 ==> EndsAtFirstSeparator(parts[i], sep)
    requires !Contains(parts[|parts| - 1], sep)
    ensures Split(Join(parts, sep), sep) == parts
    decreases |parts|
  {
    if |parts| == 1 {
      SplitWhole(parts[0], sep);
    } else {
      var rest := parts[1..];
      assert rest[|rest| - 1] == parts[|parts| - 1];
      forall i | 0 <= i < |rest| - 1 ensures EndsAtFirstSeparator(rest[i], sep) {
        assert rest[i] == parts[i + 1];
      }
      SplitJoin(rest, sep);
      assert parts == [parts[0]] + rest;
      SplitJoinStep(parts[0], rest, sep);
    }
  }

  /** One part of `SplitJoin`: the first part is cut off intact and the rest is split on its own. */
  lemma SplitJoinStep(f: string, rest: seq<string>, sep: string)
    requires sep != []
    requires rest != []
    requires EndsAtFirstSeparator(f, sep)
    ensures Split(Join([f] + rest, sep), sep) == [f] + Split(Join(rest, sep), sep)
  {
    var tail := Join(rest, sep);
    var s := f + sep + tail;
    JoinCons(f, rest, sep);
    FindAfterPart(f, sep, tail);
    assert s[..|f|] == f;
    assert s[|f| + |sep|..] == tail;
    SplitUnfold(s, sep);
  }

  /**
   `Split` cuts at the leftmost separators, scanning left to right without
   overlaps: each part but the last ends where the leftmost separator starts,
   and the last part contains no separator at all.
   */
  lemma {:induction false} SplitLeftmost(s: string, sep: string)
    requires sep != []
    ensures forall i :: 0 <= i < |Split(s, sep)| - 1 ==> EndsAtFirstSeparator(Split(s, sep)[i], sep)
    ensures !Contains(Split(s, sep)[|Split(s, sep)| - 1], sep)
    decreases |s|
  {
    var k := Find(s, sep);
    FindFirst(s, sep);
    if k >= 0 {
      SplitStep(s, sep, k);
      SplitUnfold(s, sep);
      var tail := s[k + |sep|..];
      SplitLeftmost(tail, sep);
      var parts := Split(s, sep);
      var rest := Split(tail, sep);
      assert parts == [s[..k]] + rest;
      forall i | 0 <= i < |parts| - 1 ensures EndsAtFirstSeparator(parts[i], sep) {
        if i > 0 {
          assert parts[i] == rest[i - 1];
        }
      }
      assert parts[|parts| - 1] == rest[|rest| - 1];
    }
  }

  /** For a one-character separator, ending at the leftmost separator just means not containing it. */
  lemma SingleCharPart(f: string, c: char)
    ensures EndsAtFirstSeparator(f, [c]) <==> c !in f
    ensures Contains(f, [c]) <==> c in f
  {
    var t := f + [c];
    FindFirst(t, [c]);
    if c !in f {
      forall j | 0 <= j < |f| ensures !OccursAt(t, [c], j) {
        OccursAtChar(t, c, j);
        assert t[j] == f[j];
      }
      OccursAtChar(t, c, |f|);
      FindLeftmost(t, [c], |f|);
    } else {
      var j :| 0 <= j < |f| && f[j] == c;
      OccursAtChar(t, c, j);
      assert t[j] == f[j];
    }
    if c in f {
      var j :| 0 <= j < |f| && f[j] == c;
      OccursAtChar(f, c, j);
    } else {
      forall j ensures !OccursAt(f, [c], j) {
        OccursAtChar(f, c, j);
      }
    }
  }

  /** Parts produced by a one-character split never contain that character. */
  lemma SplitCharParts(s: string, c: char)
    ensures forall i :: 0 <= i < |Split(s, [c])| ==> c !in Split(s, [c])[i]
  {
    var parts := Split(s, [c]);
    SplitLeftmost(s, [c]);
    forall i | 0 <= i < |parts| ensures c !in parts[i] {
      SingleCharPart(parts[i], c);
    }
  }

  /** Every character of every part shows up in the joined string. */
  lemma {:induction false} JoinKeepsChars(parts: seq<string>, sep: string, i: int, c: char)
    requires 0 <= i < |parts|
    requires c in parts[i]
    ensures c in Join(parts, sep)
    decreases |parts|
  {
    if |parts| > 1 && i > 0 {
      JoinKeepsChars(parts[1..], sep, i - 1, c);
    }
  }

  /** A character in neither the parts nor the separator is not in their join. */
  lemma {:induction false} JoinFree(parts: seq<string>, sep: string, c: char)
    requires c !in sep
    requires forall i :: 0 <= i < |parts| ==> c !in parts[i]
    ensures c !in Join(parts, sep)
    decreases |parts|
  {
    if |parts| > 1 {
      JoinFree(parts[1..], sep, c);
    }
  }

  /** Counting a character the separator does not contain: `Join` adds none. */
  lemma {:induction false} JoinCount(parts: seq<string>, sep: string, c: char)
    requires c !in sep
    ensures multiset(Join(parts, sep))[c] == multiset(Concat(parts))[c]
    decreases |parts|
  {
    if |parts| == 0 {
    } else if |parts| == 1 {
      assert Concat(parts) == parts[0] + Concat(parts[1..]);
      assert Concat(parts[1..]) == [];
    } else {
      JoinCount(parts[1..], sep, c);
      assert multiset(sep)[c] == 0;
    }
  }

  /** Joining separator-free parts on a one-character separator adds one separator between each pair. */
  lemma {:induction false} JoinCharCount(parts: seq<string>, c: char)
    requires |parts| >= 1
    requires forall i :: 0 <= i < |parts| ==> c !in parts[i]
    ensures multiset(Join(parts, [c]))[c] == |parts| - 1
    decreases |parts|
  {
    if |parts| > 1 {
      JoinCharCount(parts[1..], c);
      assert multiset(parts[0])[c] == 0;
    } else {
      assert multiset(parts[0])[c] == 0;
    }
  }

  /** A one-character split yields exactly one more part than there are separators in the input. */
  lemma SplitCharCount(s: string, c: char)
    ensures |Split(s, [c])| == multiset(s)[c] + 1
  {
    SplitCharParts(s, c);
    JoinSplit(s, [c]);
    JoinCharCount(Split(s, [c]), c);
  }

  /** `t` is a suffix of `s`. */
  predicate EndsWith(s: string, t: string) {
    |t| <= |s| && s[|s| - |t|..] == t
  }

  /** `Join` starts with the first part, followed by the separator when there is more than one part. */
  lemma JoinStartsWithFirst(parts: seq<string>, sep: string)
    requires |parts| >= 1
    ensures parts[0] <= Join(parts, sep)
    ensures |parts| >= 2 ==> parts[0] + sep <= Join(parts, sep)
  {
  }

  /** `Join` ends with the last part, preceded by the separator when there is more than one part. */
  lemma {:induction false} JoinEndsWithLast(parts: seq<string>, sep: string)
    requires |parts| >= 1
    ensures EndsWith(Join(parts, sep), parts[|parts| - 1])
    ensures |parts| >= 2 ==> EndsWith(Join(parts, sep), sep + parts[|parts| - 1])
    decreases |parts|
  {
    var last := parts[|parts| - 1];
    var j := Join(parts, sep);
    if |parts| == 1 {
      assert j[|j| - |last|..] == last;
    } else {
      var rest := parts[1..];
      var jr := Join(rest, sep);
      JoinEndsWithLast(rest, sep);
      assert rest[|rest| - 1] == last;
      assert j == parts[0] + sep + jr;
      assert |jr| >= |last|;
      if |rest| == 1 {
        assert jr == last;
        assert j[|j| - |last| - |sep|..] == sep + last;
      } else {
        assert jr[|jr| - |last| - |sep|..] == sep + last;
        assert j[|j| - |last| - |sep|..] == jr[|jr| - |last| - |sep|..];
      }
      assert j[|j| - |last|..] == (sep + last)[|sep|..];
    }
  }

  /** `Concat` of a list with one more element at the end. */
  lemma {:induction false} ConcatSnoc(parts: seq<string>, x: string)
    ensures Concat(parts + [x]) == Concat(parts) + x
    decreases |parts|
  {
    if parts == [] {
      assert [] + [x] == [x];
    } else {
      assert (parts + [x])[1..] == parts[1..] + [x];
      ConcatSnoc(parts[1..], x);
    }
  }

  /** A character of some part is a character of the concatenation. */
  lemma {:induction false} ConcatKeepsChars(parts: seq<string>, i: int, c: char)
    requires 0 <= i < |parts| && c in parts[i]
    ensures c in Concat(parts)
    decreases |parts|
  {
    if i > 0 {
      ConcatKeepsChars(parts[1..], i - 1, c);
    }
  }

  /** A character in no part is not in the concatenation. */
  lemma {:induction false} ConcatFree(parts: seq<string>, c: char)
    requires forall i :: 0 <= i < |parts| ==> c !in parts[i]
    ensures c !in Concat(parts)
    decreases |parts|
  {
    if parts != [] {
      var rest := parts[1..];
      forall i | 0 <= i < |rest| ensures c !in rest[i] {
        assert rest[i] == parts[i + 1];
      }
      ConcatFree(rest, c);
    }
  }
}
