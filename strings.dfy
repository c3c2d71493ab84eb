/** The few Python string operations the core relies on: str.startswith,
    str.find, str.rfind, the `in` operator on strings, str.strip, str.join,
    str.split on a one-character separator, and the ordering of str values. */
module Strings {

  /** s[i : i + |p|] == p, with the slice fully inside s. */
  predicate OccursAt(s: string, p: string, i: int)
  {
    0 <= i && i + |p| <= |s| && s[i..i + |p|] == p
  }

  /** s.startswith(p) */
  predicate StartsWith(s: string, p: string)
  {
    |p| <= |s| && s[..|p|] == p
  }

  /** s.find(p, i) restricted to the positions i, i + 1, ...: the first one where p
      occurs, or -1. */
  function FindFrom(s: string, p: string, i: nat): (r: int)
    ensures r == -1 || (i <= r && OccursAt(s, p, r))
    ensures forall j :: i <= j && (r == -1 || j < r) ==> !OccursAt(s, p, j)
    decreases |s| + 1 - i
  {
    if i + |p| > |s| then -1
    else if OccursAt(s, p, i) then i
    else FindFrom(s, p, i + 1)
  }

  /** s.find(p): the lowest index where p occurs in s, or -1. */
  function Find(s: string, p: string): (r: int)
    ensures r == -1 <==> forall j :: !OccursAt(s, p, j)
    ensures r != -1 ==> OccursAt(s, p, r) && forall j :: j < r ==> !OccursAt(s, p, j)
  {
    FindFrom(s, p, 0)
  }

  /** p in s */
  predicate Contains(s: string, p: string)
  {
    Find(s, p) != -1
  }

  /** The highest position j <= i where p occurs in s, or -1. */
  function RFindAt(s: string, p: string, i: int): (r: int)
    ensures r == -1 || (r <= i && OccursAt(s, p, r))
    ensures forall j :: (r < j <= i) ==> !OccursAt(s, p, j)
    decreases i + 1
  {
    if i < 0 then -1
    else if OccursAt(s, p, i) then i
    else RFindAt(s, p, i - 1)
  }

  /** s.rfind(p): the highest index where p occurs in s, or -1. */
  function RFind(s: string, p: string): (r: int)
    ensures r == -1 <==> forall j :: !OccursAt(s, p, j)
    ensures r != -1 ==> OccursAt(s, p, r) && forall j :: j > r ==> !OccursAt(s, p, j)
  {
    RFindAt(s, p, |s| - |p|)
  }

  /** The characters Python's str.isspace() accepts, which str.strip() removes. */
  predicate IsSpace(c: char)
  {
    || '\t' <= c <= '\r'
    || '\U{1c}' <= c <= ' '
    || c == '\U{85}' || c == '\U{a0}' || c == '\U{1680}'
    || '\U{2000}' <= c <= '\U{200a}'
    || c == '\U{2028}' || c == '\U{2029}' || c == '\U{202f}' || c == '\U{205f}' || c == '\U{3000}'
  }

  /** Index of the first non-space character at or after i (|s| when none). */
  function SkipSpaces(s: string, i: nat): (r: nat)
    requires i <= |s|
    ensures i <= r <= |s|
    ensures forall k :: i <= k < r ==> IsSpace(s[k])
    ensures r < |s| ==> !IsSpace(s[r])
    decreases |s| - i
  {
    if i < |s| && IsSpace(s[i]) then SkipSpaces(s, i + 1) else i
  }

  /** One past the last non-space character below j, but not below lo. */
  function SkipSpacesBack(s: string, lo: nat, j: nat): (r: nat)
    requires lo <= j <= |s|
    ensures lo <= r <= j
    ensures forall k :: r <= k < j ==> IsSpace(s[k])
    ensures r > lo ==> !IsSpace(s[r - 1])
    decreases j
  {
    if j > lo && IsSpace(s[j - 1]) then SkipSpacesBack(s, lo, j - 1) else j
  }

  /** s.strip() */
  function Strip(s: string): (r: string)
  {
    var a := SkipSpaces(s, 0);
    s[a..SkipSpacesBack(s, a, |s|)]
  }

  /** strip keeps a middle slice of s: what it drops on either side is whitespace,
      and what it keeps neither starts nor ends with whitespace. */
  lemma StripSlice(s: string)
    ensures exists a, b ::
      && 0 <= a <= b <= |s| && Strip(s) == s[a..b]
      && (forall k :: 0 <= k < a ==> IsSpace(s[k]))
      && (forall k :: b <= k < |s| ==> IsSpace(s[k]))
      && (a < b ==> !IsSpace(s[a]) && !IsSpace(s[b - 1]))
  {
    var a := SkipSpaces(s, 0);
    var b := SkipSpacesBack(s, a, |s|);
    assert Strip(s) == s[a..b];
    assert a < b ==> !IsSpace(s[a]);
  }

  /** Stripping one whitespace character from each side of a body that neither
      starts nor ends with whitespace gives the body back. */
  lemma StripFramed(a: char, body: string, c: char)
    requires IsSpace(a) && IsSpace(c)
    requires |body| > 0 && !IsSpace(body[0]) && !IsSpace(body[|body| - 1])
    ensures Strip([a] + body + [c]) == body
  {
    var s := [a] + body + [c];
    assert s[0] == a && s[1] == body[0];
    assert SkipSpaces(s, 0) == 1 by {
      assert SkipSpaces(s, 1) == 1;
    }
    assert s[|s| - 1] == c && s[|s| - 2] == body[|body| - 1];
    assert SkipSpacesBack(s, 1, |s|) == |s| - 1 by {
      assert SkipSpacesBack(s, 1, |s| - 1) == |s| - 1;
    }
    assert s[1..|s| - 1] == body;
  }

  /** sep.join(parts) */
  function Join(parts: seq<string>, sep: string): (r: string)
  {
    if |parts| == 0 then ""
    else if |parts| == 1 then parts[0]
    else parts[0] + sep + Join(parts[1..], sep)
  }

  /** Joining x in front of a non-empty list puts one separator after x. */
  lemma JoinCons(x: string, rest: seq<string>, sep: string)
    requires |rest| >= 1
    ensures Join([x] + rest, sep) == x + sep + Join(rest, sep)
  {
    assert ([x] + rest)[1..] == rest;
  }

  /** Joining a and b in front of a non-empty list. */
  lemma JoinCons2(a: string, b: string, rest: seq<string>, sep: string)
    requires |rest| >= 1
    ensures Join([a, b] + rest, sep) == a + sep + (b + sep + Join(rest, sep))
  {
    var parts := [a, b] + rest;
    assert parts[1..] == [b] + rest;
    assert parts[1..][1..] == rest;
  }

  /** Joining seven parts puts the separator between each two. */
  lemma Join7(a: string, b: string, c: string, d: string, e: string, f: string, g: string, sep: string)
    ensures Join([a, b, c, d, e, f, g], sep) == a + sep + b + sep + c + sep + d + sep + e + sep + f + sep + g
  {
    var p := [a, b, c, d, e, f, g];
    assert Join(p[5..], sep) == f + sep + g by {
      assert p[5..][1..] == [g];
    }
    assert Join(p[4..], sep) == e + sep + (f + sep + g) by {
      assert p[4..][1..] == p[5..];
    }
    assert Join(p[3..], sep) == d + sep + (e + sep + (f + sep + g)) by {
      assert p[3..][1..] == p[4..];
    }
    assert Join(p[2..], sep) == c + sep + (d + sep + (e + sep + (f + sep + g))) by {
      assert p[2..][1..] == p[3..];
    }
    assert Join(p[1..], sep) == b + sep + (c + sep + (d + sep + (e + sep + (f + sep + g)))) by {
      assert p[1..][1..] == p[2..];
    }
    assert Join(p, sep) == a + sep + (b + sep + (c + sep + (d + sep + (e + sep + (f + sep + g)))));
  }

  lemma ConcatAssoc(a: string, b: string, c: string, sep: string)
    ensures (a + sep + b) + sep + c == a + sep + (b + sep + c)
  {
  }

  /** s.split(c) for a one-character separator c. */
  function Split(s: string, c: char): (r: seq<string>)
    ensures |r| >= 1
    decreases |s|
  {
    var i := Find(s, [c]);
    if i == -1 then [s] else [s[..i]] + Split(s[i + 1..], c)
  }

  /** Python's ordering of str values: code point by code point, a proper prefix
      first. */
  predicate LexLe(a: string, b: string)
  {
    if |a| == 0 then true
    else if |b| == 0 then false
    else if a[0] != b[0] then a[0] < b[0]
    else LexLe(a[1..], b[1..])
  }

  lemma {:induction false} LexLeTotal(a: string, b: string)
    ensures LexLe(a, b) || LexLe(b, a)
  {
    if |a| > 0 && |b| > 0 && a[0] == b[0] {
      LexLeTotal(a[1..], b[1..]);
    }
  }

  lemma {:induction false} LexLeTransitive(a: string, b: string, c: string)
    requires LexLe(a, b) && LexLe(b, c)
    ensures LexLe(a, c)
  {
    if |a| > 0 && |b| > 0 && |c| > 0 && a[0] == b[0] == c[0] {
      LexLeTransitive(a[1..], b[1..], c[1..]);
    }
  }

  lemma {:induction false} LexLeAntisymmetric(a: string, b: string)
    requires LexLe(a, b) && LexLe(b, a)
    ensures a == b
  {
    if |a| > 0 && |b| > 0 {
      LexLeAntisymmetric(a[1..], b[1..]);
      assert a == [a[0]] + a[1..] && b == [b[0]] + b[1..];
    }
  }

  /** A character that is not the separator cannot start an occurrence of it. */
  predicate NoChar(s: string, c: char)
  {
    forall k :: 0 <= k < |s| ==> s[k] != c
  }

  /** Splitting the join of separator-free parts gives the parts back. */
  lemma {:induction false} SplitJoin(parts: seq<string>, c: char)
    requires |parts| >= 1
    requires forall i :: 0 <= i < |parts| ==> NoChar(parts[i], c)
    ensures Split(Join(parts, [c]), c) == parts
  {
    var s := Join(parts, [c]);
    if |parts| == 1 {
      NoCharNotFound(parts[0], c);
    } else {
      var rest := Join(parts[1..], [c]);
      assert s == parts[0] + [c] + rest;
      var n := |parts[0]|;
      assert OccursAt(s, [c], n);
      forall j | j < n ensures !OccursAt(s, [c], j) {
        if 0 <= j { assert s[j] == parts[0][j]; }
      }
      assert Find(s, [c]) == n;
      assert s[..n] == parts[0];
      assert s[n + 1..] == rest;
      SplitJoin(parts[1..], c);
    }
  }

  lemma NoCharNotFound(s: string, c: char)
    requires NoChar(s, c)
    ensures Find(s, [c]) == -1
  {
    forall j | 0 <= j < |s| ensures !OccursAt(s, [c], j) {
      assert s[j..j + 1][0] == s[j];
    }
  }

  /** Every part of a join occurs in it. */
  lemma {:induction false} JoinContains(parts: seq<string>, sep: string, i: nat)
    requires i < |parts|
    ensures exists k :: OccursAt(Join(parts, sep), parts[i], k)
  {
    var s := Join(parts, sep);
    if |parts| == 1 {
      assert OccursAt(s, parts[0], 0);
    } else if i == 0 {
      assert s == parts[0] + (sep + Join(parts[1..], sep));
      assert OccursAt(s, parts[0], 0);
    } else {
      JoinContains(parts[1..], sep, i - 1);
      var rest := Join(parts[1..], sep);
      var k :| OccursAt(rest, parts[i], k);
      assert s == (parts[0] + sep) + rest;
      OccursShift(parts[0] + sep, rest, parts[i], k);
    }
  }

  /** An occurrence in b is an occurrence in a + b, shifted by |a|. */
  lemma OccursShift(a: string, b: string, p: string, k: int)
    requires OccursAt(b, p, k)
    ensures OccursAt(a + b, p, |a| + k)
  {
    assert (a + b)[|a| + k..|a| + k + |p|] == b[k..k + |p|];
  }
}
