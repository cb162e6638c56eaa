/** The Python `str` operations the command-line tools rely on, over `seq<char>`. */
module Strings {
  import opened Wrappers

  /** Python truthiness of an optional string: `None` and `""` are false. */
  predicate Truthy(s: Option<string>) {
    s.Some? && s.value != ""
  }

  /** `str(x)` of an optional string: an absent value prints as "None". */
  function PyStr(s: Option<string>): string {
    s.GetOr("None")
  }

  /** Python's `str.isspace()` for one character. */
  predicate IsSpace(c: char) {
    || c == ' '
    || ('\t' <= c <= '\r')
    || ('\U{1C}' <= c <= '\U{1F}')
    || c == '\U{85}' || c == '\U{A0}' || c == '\U{1680}'
    || ('\U{2000}' <= c <= '\U{200A}')
    || c == '\U{2028}' || c == '\U{2029}' || c == '\U{202F}' || c == '\U{205F}' || c == '\U{3000}'
  }

  /** Neither the first nor the last character is whitespace. */
  predicate IsStripped(s: string) {
    s == [] || (!IsSpace(s[0]) && !IsSpace(s[|s| - 1]))
  }

  /** `str.lstrip()`: the suffix left after dropping leading whitespace. */
  function TrimStart(s: string): (r: string)
    ensures |r| <= |s| && r == s[|s| - |r|..]
    ensures forall k :: 0 <= k < |s| - |r| ==> IsSpace(s[k])
    ensures r == [] || !IsSpace(r[0])
  {
    if s != [] && IsSpace(s[0]) then TrimStart(s[1..]) else s
  }

  /** `str.rstrip()`: the prefix left after dropping trailing whitespace. */
  function TrimEnd(s: string): (r: string)
    ensures |r| <= |s| && r == s[..|r|]
    ensures forall k :: |r| <= k < |s| ==> IsSpace(s[k])
    ensures r == [] || !IsSpace(r[|r| - 1])
  {
    if s != [] && IsSpace(s[|s| - 1]) then TrimEnd(s[..|s| - 1]) else s
  }

  /** `str.strip()`: a contiguous piece of `s` with only whitespace around it. */
  function Strip(s: string): (r: string)
    ensures IsStripped(r)
    ensures exists i :: StripsTo(s, r, i)
  {
    var t := TrimStart(s);
    var r := TrimEnd(t);
    var i := |s| - |t|;
    assert StripsTo(s, r, i);
    r
  }

  /** `r` is the piece `s[i..i + |r|]` and everything around it is whitespace. */
  ghost predicate StripsTo(s: string, r: string, i: int) {
    && 0 <= i <= |s| - |r|
    && r == s[i..i + |r|]
    && (forall k :: 0 <= k < i ==> IsSpace(s[k]))
    && (forall k :: i + |r| <= k < |s| ==> IsSpace(s[k]))
  }

  lemma StripOfStripped(s: string)
    requires IsStripped(s)
    ensures Strip(s) == s
  {
  }

  /** `[Strip(p) for p in parts]`. */
  function StripAll(parts: seq<string>): (r: seq<string>)
    ensures |r| == |parts|
    ensures forall i :: 0 <= i < |r| ==> r[i] == Strip(parts[i])
  {
    seq(|parts|, i requires 0 <= i < |parts| => Strip(parts[i]))
  }

  /** `sep.join(parts)`. */
  function Join(parts: seq<string>, sep: string): string {
    if |parts| == 0 then ""
    else if |parts| == 1 then parts[0]
    else parts[0] + sep + Join(parts[1..], sep)
  }

  /** Joining a list that has a first part and at least one more. */
  lemma JoinCons(a: string, rest: seq<string>, sep: string)
    requires |rest| >= 1
    ensures Join([a] + rest, sep) == a + sep + Join(rest, sep)
  {
    assert ([a] + rest)[1..] == rest;
  }

  /** Putting a character in front of the first part puts it in front of the join. */
  lemma JoinExtendFirst(c: char, rest: seq<string>, sep: string)
    requires |rest| >= 1
    ensures Join([[c] + rest[0]] + rest[1..], sep) == [c] + Join(rest, sep)
  {
    var parts := [[c] + rest[0]] + rest[1..];
    assert parts[1..] == rest[1..];
    if |rest| > 1 {
      assert Join(rest, sep) == rest[0] + sep + Join(rest[1..], sep);
    }
  }

  /** `s.split(sep)` for a one-character separator: at least one part, none holding the
      separator, and joining the parts with the separator gives `s` back. */
  function Split(s: string, sep: char): (parts: seq<string>)
    ensures |parts| >= 1
    ensures forall p :: p in parts ==> sep !in p
    ensures Join(parts, [sep]) == s
  {
    if s == [] then [""]
    else
      var rest := Split(s[1..], sep);
      if s[0] == sep then
        assert ([""] + rest)[1..] == rest;
        [""] + rest
      else
        var parts := [[s[0]] + rest[0]] + rest[1..];
        assert parts[1..] == rest[1..];
        assert |rest| > 1 ==> Join(rest, [sep]) == rest[0] + [sep] + Join(rest[1..], [sep]);
        parts
  }

  /** Index of the first `sep` in `s`, or `|s|` when there is none. */
  function FirstIndexOf(s: string, sep: char): (n: nat)
    ensures n <= |s|
    ensures sep !in s[..n]
    ensures n < |s| ==> s[n] == sep
  {
    if s == [] then 0
    else if s[0] == sep then 0
    else
      var n := 1 + FirstIndexOf(s[1..], sep);
      assert s[..n] == [s[0]] + s[1..][..n - 1];
      n
  }

  lemma {:induction false} FirstIndexAfter(a: string, rest: string, sep: char)
    requires sep !in a
    ensures FirstIndexOf(a + rest, sep) == |a| + FirstIndexOf(rest, sep)
  {
    if a != [] {
      assert a[0] in a && (a + rest)[0] == a[0];
      assert (a + rest)[1..] == a[1..] + rest;
      assert forall c :: c in a[1..] ==> c in a;
      FirstIndexAfter(a[1..], rest, sep);
    } else {
      assert a + rest == rest;
    }
  }

  /** In a join of separator-free pieces, the first piece ends at the first separator,
      and the text is longer than the first piece exactly when there is more than one. */
  lemma JoinFirstPiece(ps: seq<string>, sep: char)
    requires |ps| >= 1
    requires forall p :: p in ps ==> sep !in p
    ensures FirstIndexOf(Join(ps, [sep]), sep) == |ps[0]|
    ensures |ps| > 1 <==> |Join(ps, [sep])| > |ps[0]|
  {
    assert ps[0] in ps;
    if |ps| == 1 {
      FirstIndexAfter(ps[0], "", sep);
      assert ps[0] + "" == ps[0];
    } else {
      var rest := [sep] + Join(ps[1..], [sep]);
      assert Join(ps, [sep]) == ps[0] + rest;
      FirstIndexAfter(ps[0], rest, sep);
    }
  }

  /** Two lists of separator-free pieces that join to the same text are the same list. */
  lemma {:induction false} JoinInjective(ps: seq<string>, qs: seq<string>, sep: char)
    requires |ps| >= 1 && |qs| >= 1
    requires forall p :: p in ps ==> sep !in p
    requires forall q :: q in qs ==> sep !in q
    requires Join(ps, [sep]) == Join(qs, [sep])
    ensures ps == qs
  {
    var j := Join(ps, [sep]);
    var a, b := ps[0], qs[0];
    // The first piece ends at the first separator (or at the end of the text).
    JoinFirstPiece(ps, sep);
    JoinFirstPiece(qs, sep);
    assert |ps| > 1 ==> j == a + [sep] + Join(ps[1..], [sep]);
    assert |qs| > 1 ==> j == b + [sep] + Join(qs[1..], [sep]);
    assert a == j[..|a|] == b;
    if |ps| == 1 || |qs| == 1 {
      assert |ps| == 1 && |qs| == 1;
    } else {
      var tp, tq := Join(ps[1..], [sep]), Join(qs[1..], [sep]);
      assert tp == j[|a| + 1..] == tq;
      forall p | p in ps[1..] ensures sep !in p { assert p in ps; }
      forall q | q in qs[1..] ensures sep !in q { assert q in qs; }
      JoinInjective(ps[1..], qs[1..], sep);
      assert ps == [ps[0]] + ps[1..] && qs == [qs[0]] + qs[1..];
    }
  }

  /** Splitting text that was joined from separator-free pieces gives the pieces back. */
  lemma SplitJoin(parts: seq<string>, sep: char)
    requires |parts| >= 1
    requires forall p :: p in parts ==> sep !in p
    ensures Split(Join(parts, [sep]), sep) == parts
  {
    JoinInjective(Split(Join(parts, [sep]), sep), parts, sep);
  }

  /** `s.startswith(prefix)`. */
  predicate StartsWith(s: string, prefix: string) {
    |prefix| <= |s| && s[..|prefix|] == prefix
  }

  /** `s.endswith(suffix)`. */
  predicate EndsWith(s: string, suffix: string) {
    |suffix| <= |s| && s[|s| - |suffix|..] == suffix
  }

  /** Python's `t in s` for strings. */
  predicate Contains(s: string, t: string) {
    exists i | 0 <= i <= |s| :: OccursAt(s, t, i)
  }

  /** `t` occurs in `s` starting at index `i`. */
  predicate OccursAt(s: string, t: string, i: int) {
    0 <= i && i + |t| <= |s| && s[i..i + |t|] == t
  }

  lemma ContainsEmpty(s: string)
    ensures Contains(s, "")
  {
    assert OccursAt(s, "", 0);
  }

  /** `s.split(pat)` for a non-empty `pat`, cutting at the leftmost non-overlapping
      occurrences: the first piece begins the text and joining the pieces with `pat` gives
      `s` back. `SplitOnPieces` shows that no piece contains `pat`. */
  function SplitOn(s: string, pat: string): (parts: seq<string>)
    requires pat != []
    ensures |parts| >= 1
    ensures StartsWith(s, parts[0])
    ensures Join(parts, pat) == s
    decreases |s|
  {
    if |s| < |pat| then [s]
    else if s[..|pat|] == pat then
      var rest := SplitOn(s[|pat|..], pat);
      JoinCons("", rest, pat);
      assert s == pat + s[|pat|..];
      [""] + rest
    else
      var rest := SplitOn(s[1..], pat);
      JoinExtendFirst(s[0], rest, pat);
      assert [s[0]] + rest[0] == s[..1 + |rest[0]|];
      [[s[0]] + rest[0]] + rest[1..]
  }

  /** No piece of `s.split(pat)` contains `pat`. */
  lemma {:induction false} SplitOnPieces(s: string, pat: string)
    requires pat != []
    ensures forall p :: p in SplitOn(s, pat) ==> !Contains(p, pat)
    decreases |s|
  {
    var parts := SplitOn(s, pat);
    if |s| < |pat| {
      assert parts == [s];
      assert forall i :: 0 <= i <= |s| ==> !OccursAt(s, pat, i);
    } else if s[..|pat|] == pat {
      var rest := SplitOn(s[|pat|..], pat);
      SplitOnPieces(s[|pat|..], pat);
      assert parts == [""] + rest;
      assert !OccursAt("", pat, 0);
      forall p | p in parts ensures !Contains(p, pat) {
        if p != "" {
          assert p in rest;
        }
      }
    } else {
      var rest := SplitOn(s[1..], pat);
      SplitOnPieces(s[1..], pat);
      var first := [s[0]] + rest[0];
      assert parts == [first] + rest[1..];
      assert first == s[..|first|];
      assert rest[0] in rest;
      forall i | 0 <= i <= |first| ensures !OccursAt(first, pat, i) {
        if i == 0 && |pat| <= |first| {
          assert first[..|pat|] == s[..|pat|];
          assert first[0..|pat|] == first[..|pat|];
        } else if 0 < i && i + |pat| <= |first| {
          assert first[i..i + |pat|] == rest[0][i - 1..i - 1 + |pat|];
          assert !OccursAt(rest[0], pat, i - 1);
        }
      }
      forall p | p in parts ensures !Contains(p, pat) {
        if p != first {
          assert p in rest;
        }
      }
    }
  }

  /** A text in which `pat` does not occur is one piece. */
  lemma {:induction false} SplitOnAbsent(s: string, pat: string)
    requires pat != []
    requires !Contains(s, pat)
    ensures SplitOn(s, pat) == [s]
    decreases |s|
  {
    if |s| >= |pat| {
      assert !OccursAt(s, pat, 0);
      assert s[0..|pat|] == s[..|pat|];
      forall i | 0 <= i <= |s[1..]| ensures !OccursAt(s[1..], pat, i) {
        assert !OccursAt(s, pat, i + 1);
        if i + |pat| <= |s[1..]| {
          assert s[1..][i..i + |pat|] == s[i + 1..i + 1 + |pat|];
        }
      }
      SplitOnAbsent(s[1..], pat);
      assert s == [s[0]] + s[1..];
    }
  }

  /** The first cut of `s.split(pat)` is leftmost: `pat` starts nowhere before the end of
      the first piece. */
  lemma {:induction false} SplitOnFirstLeftmost(s: string, pat: string)
    requires pat != []
    ensures forall i :: 0 <= i < |SplitOn(s, pat)[0]| ==> !OccursAt(s, pat, i)
    decreases |s|
  {
    if |s| >= |pat| && s[..|pat|] != pat {
      var rest := SplitOn(s[1..], pat);
      SplitOnFirstLeftmost(s[1..], pat);
      var first := SplitOn(s, pat)[0];
      assert first == [s[0]] + rest[0];
      forall i | 0 <= i < |first| ensures !OccursAt(s, pat, i) {
        if i == 0 {
          assert s[0..|pat|] == s[..|pat|];
        } else if i + |pat| <= |s| {
          assert s[1..][i - 1..i - 1 + |pat|] == s[i..i + |pat|];
          assert !OccursAt(s[1..], pat, i - 1);
        }
      }
    }
  }

  /** After the first piece of `s.split(pat)`, when there is more than one, `pat` occurs,
      and the other pieces are the split of the text after that occurrence. */
  lemma {:induction false} SplitOnRest(s: string, pat: string)
    requires pat != []
    ensures var parts := SplitOn(s, pat);
            |parts| > 1 ==>
              && OccursAt(s, pat, |parts[0]|)
              && SplitOn(s[|parts[0]| + |pat|..], pat) == parts[1..]
    decreases |s|
  {
    var parts := SplitOn(s, pat);
    if |s| >= |pat| {
      if s[..|pat|] == pat {
        assert parts == [""] + SplitOn(s[|pat|..], pat);
        assert s[0..|pat|] == s[..|pat|];
      } else {
        var rest := SplitOn(s[1..], pat);
        SplitOnRest(s[1..], pat);
        assert parts == [[s[0]] + rest[0]] + rest[1..];
        if |parts| > 1 {
          var k := |rest[0]|;
          assert s[1..][k..k + |pat|] == s[k + 1..k + 1 + |pat|];
          assert s[1..][k + |pat|..] == s[k + 1 + |pat|..];
        }
      }
    }
  }

  /** `s.replace(pat, rep)` for a non-empty `pat`, left to right and non-overlapping: it is
      `rep.join(s.split(pat))`, so the text between the occurrences is kept, in order. */
  function ReplaceAll(s: string, pat: string, rep: string): (r: string)
    requires pat != []
    ensures r == Join(SplitOn(s, pat), rep)
    decreases |s|
  {
    if |s| < |pat| then
      assert SplitOn(s, pat) == [s];
      s
    else if s[..|pat|] == pat then
      var rest := SplitOn(s[|pat|..], pat);
      assert SplitOn(s, pat) == [""] + rest;
      JoinCons("", rest, rep);
      rep + ReplaceAll(s[|pat|..], pat, rep)
    else
      var rest := SplitOn(s[1..], pat);
      assert SplitOn(s, pat) == [[s[0]] + rest[0]] + rest[1..];
      JoinExtendFirst(s[0], rest, rep);
      [s[0]] + ReplaceAll(s[1..], pat, rep)
  }

  /** When `pat` occurs, the replacement text occurs in the result. */
  lemma ReplaceInserts(s: string, pat: string, rep: string)
    requires pat != []
    requires Contains(s, pat)
    ensures Contains(ReplaceAll(s, pat, rep), rep)
  {
    var ps := SplitOn(s, pat);
    SplitOnPieces(s, pat);
    assert ps[0] in ps;
    if |ps| == 1 {
      assert false;
    }
    var r := Join(ps, rep);
    assert r == ps[0] + rep + Join(ps[1..], rep);
    assert r[|ps[0]|..|ps[0]| + |rep|] == rep;
    assert OccursAt(r, rep, |ps[0]|);
  }

  /** Joining `pat`-free pieces with `rep` gives a `pat`-free text, provided `pat` contains
      neither the first nor the last character of `rep` and does not occur inside `rep`. */
  lemma {:induction false} JoinKeepsOut(pieces: seq<string>, pat: string, rep: string)
    requires pat != [] && rep != []
    requires rep[0] !in pat && rep[|rep| - 1] !in pat
    requires !Contains(rep, pat)
    requires forall p :: p in pieces ==> !Contains(p, pat)
    ensures !Contains(Join(pieces, rep), pat)
    decreases |pieces|
  {
    if |pieces| == 1 {
      assert pieces[0] in pieces;
    } else if |pieces| > 1 {
      var p0, j := pieces[0], Join(pieces[1..], rep);
      forall q | q in pieces[1..] ensures !Contains(q, pat) {
        assert q in pieces;
      }
      JoinKeepsOut(pieces[1..], pat, rep);
      assert p0 in pieces;
      var r := Join(pieces, rep);
      assert r == p0 + rep + j;
      forall i | 0 <= i <= |r| ensures !OccursAt(r, pat, i) {
        if i + |pat| <= |r| {
          var w := r[i..i + |pat|];
          if i + |pat| <= |p0| {
            assert w == p0[i..i + |pat|];
            assert !OccursAt(p0, pat, i);
          } else if i < |p0| {
            assert w[|p0| - i] == rep[0];
          } else if i + |pat| <= |p0| + |rep| {
            assert w == rep[i - |p0|..i - |p0| + |pat|];
            assert !OccursAt(rep, pat, i - |p0|);
          } else if i < |p0| + |rep| {
            assert w[|p0| + |rep| - 1 - i] == rep[|rep| - 1];
          } else {
            assert w == j[i - |p0| - |rep|..i - |p0| - |rep| + |pat|];
            assert !OccursAt(j, pat, i - |p0| - |rep|);
          }
        }
      }
    }
  }

  /** After `s.replace(pat, rep)` the text `pat` is gone, provided it contains neither the
      first nor the last character of `rep` and does not occur inside `rep`. */
  lemma ReplaceRemovesAll(s: string, pat: string, rep: string)
    requires pat != [] && rep != []
    requires rep[0] !in pat && rep[|rep| - 1] !in pat
    requires !Contains(rep, pat)
    ensures !Contains(ReplaceAll(s, pat, rep), pat)
  {
    SplitOnPieces(s, pat);
    JoinKeepsOut(SplitOn(s, pat), pat, rep);
  }

  /** Python's `str.lower()` restricted to ASCII: 'A'..'Z' become 'a'..'z'. */
  function LowerChar(c: char): (d: char)
    ensures 'A' <= c <= 'Z' ==> d as int == c as int + 32
    ensures !('A' <= c <= 'Z') ==> d == c
  {
    if 'A' <= c <= 'Z' then (c as int + 32) as char else c
  }

  function Lower(s: string): (r: string)
    ensures |r| == |s|
    ensures forall i :: 0 <= i < |s| ==> r[i] == LowerChar(s[i])
  {
    seq(|s|, i requires 0 <= i < |s| => LowerChar(s[i]))
  }

  /** `s.replace(c, "")` for a single character `c`. */
  function RemoveChar(s: string, c: char): (r: string)
    ensures c !in r
    ensures forall x :: x in r ==> x in s
    ensures forall x :: x in s && x != c ==> x in r
    ensures |r| <= |s|
    ensures (forall i :: 0 <= i < |s| ==> s[i] == c) ==> r == ""
    ensures r == Join(Split(s, c), "")
  {
    if s == [] then ""
    else if s[0] == c then
      JoinCons("", Split(s[1..], c), "");
      RemoveChar(s[1..], c)
    else
      JoinExtendFirst(s[0], Split(s[1..], c), "");
      assert forall x :: x in s ==> x == s[0] || x in s[1..];
      [s[0]] + RemoveChar(s[1..], c)
  }
}
