/** String operations the core relies on: JavaScript's `startsWith`,
    `includes`, `split`, `toUpperCase`, the validator's `trim`, and SQLite's
    `LIKE` with its `%` and `_` wildcards. Case mapping is ASCII only. */
module Text {

  function LowerAscii(c: char): char {
    if 'A' <= c <= 'Z' then (c as int + 32) as char else c
  }

  function UpperAscii(c: char): char {
    if 'a' <= c <= 'z' then (c as int - 32) as char else c
  }

  /** `s.toUpperCase()` restricted to ASCII letters: the same text up to
      case, with no lower-case letter left, and every other character kept. */
  function ToUpper(s: string): (r: string)
    ensures EqualsIgnoringCase(r, s)
    ensures forall i :: 0 <= i < |r| ==> !('a' <= r[i] <= 'z')
    ensures forall i :: 0 <= i < |s| && !('a' <= s[i] <= 'z') ==> r[i] == s[i]
  {
    seq(|s|, i requires 0 <= i < |s| => UpperAscii(s[i]))
  }

  /** `s.startsWith(p)`. */
  predicate StartsWith(s: string, p: string) {
    |p| <= |s| && s[..|p|] == p
  }

  /** `sub` occurs in `s` starting at index `k`. */
  predicate OccursAt(s: string, sub: string, k: int) {
    0 <= k && k + |sub| <= |s| && s[k..k + |sub|] == sub
  }

  /** `s.includes(sub)`. */
  predicate Contains(s: string, sub: string) {
    exists k | 0 <= k <= |s| :: OccursAt(s, sub, k)
  }

  /** Text in which the first character of `sub` never occurs does not
      contain `sub`. */
  lemma LacksFirstChar(s: string, sub: string)
    requires sub != [] && forall k :: 0 <= k < |s| ==> s[k] != sub[0]
    ensures !Contains(s, sub)
  {
    forall k | 0 <= k <= |s| ensures !OccursAt(s, sub, k) {
      if k + |sub| <= |s| {
        assert s[k..k + |sub|][0] == s[k];
      }
    }
  }

  // ---------------------------------------------------------------------
  // split on a single character

  /** `s.split(sep)` for a one-character separator. */
  function Split(s: string, sep: char): (parts: seq<string>)
    ensures |parts| >= 1
    decreases |s|
  {
    if s == [] then [""]
    else
      var rest := Split(s[1..], sep);
      if s[0] == sep then [""] + rest
      else [[s[0]] + rest[0]] + rest[1..]
  }

  /** `parts.join(sep)`. */
  function Join(parts: seq<string>, sep: char): string
    decreases |parts|
  {
    if |parts| == 0 then ""
    else if |parts| == 1 then parts[0]
    else parts[0] + [sep] + Join(parts[1..], sep)
  }

  /** Joining the pieces with the separator gives back the string. */
  lemma {:induction false} JoinSplit(s: string, sep: char)
    ensures Join(Split(s, sep), sep) == s
    decreases |s|
  {
    if s != [] {
      var rest := Split(s[1..], sep);
      JoinSplit(s[1..], sep);
      if s[0] == sep {
        assert Split(s, sep) == [""] + rest;
        assert ([""] + rest)[1..] == rest;
      } else {
        var parts := Split(s, sep);
        assert parts == [[s[0]] + rest[0]] + rest[1..];
        if |rest| == 1 {
          assert parts == [[s[0]] + rest[0]];
        } else {
          assert parts[1..] == rest[1..];
          assert Join(rest, sep) == rest[0] + [sep] + Join(rest[1..], sep);
        }
        assert s == [s[0]] + s[1..];
      }
    }
  }

  /** No piece contains the separator. */
  lemma {:induction false} SplitPiecesFree(s: string, sep: char)
    ensures forall i :: 0 <= i < |Split(s, sep)| ==> sep !in Split(s, sep)[i]
    decreases |s|
  {
    if s != [] {
      SplitPiecesFree(s[1..], sep);
      var rest := Split(s[1..], sep);
      if s[0] != sep {
        assert sep !in rest[0];
        assert sep !in [s[0]] + rest[0];
      }
    }
  }

  /** A prefix free of the separator, then the separator, splits off as the
      first piece. */
  lemma {:induction false} SplitAfterSeparator(a: string, b: string, sep: char)
    requires sep !in a
    ensures Split(a + [sep] + b, sep) == [a] + Split(b, sep)
    decreases |a|
  {
    if a == [] {
      assert a + [sep] + b == [sep] + b;
      assert ([sep] + b)[1..] == b;
    } else {
      var s := a + [sep] + b;
      assert s[1..] == a[1..] + [sep] + b;
      SplitAfterSeparator(a[1..], b, sep);
      assert [a[0]] + a[1..] == a;
    }
  }

  /** The first piece is the longest separator-free prefix. */
  lemma {:induction false} SplitFirstPiece(s: string, sep: char)
    ensures var p := Split(s, sep)[0];
      sep !in p && |p| <= |s| && s[..|p|] == p && (|p| == |s| || s[|p|] == sep)
    decreases |s|
  {
    if s != [] {
      SplitFirstPiece(s[1..], sep);
      SplitPiecesFree(s, sep);
    }
  }

  /** Upper-casing equals a given upper-case word exactly when the text
      equals its lower-case form, ignoring case. */
  lemma ToUpperIsCaseInsensitive(s: string)
    ensures ToUpper(s) == "ASC" <==> EqualsIgnoringCase(s, "asc")
  {
    if EqualsIgnoringCase(s, "asc") {
      assert LowerAscii(s[0]) == 'a' && LowerAscii(s[1]) == 's' && LowerAscii(s[2]) == 'c';
      assert ToUpper(s) == "ASC";
    }
    if ToUpper(s) == "ASC" {
      assert UpperAscii(s[0]) == 'A' && UpperAscii(s[1]) == 'S' && UpperAscii(s[2]) == 'C';
    }
  }

  // ---------------------------------------------------------------------
  // trim

  /** The characters the validator's `trim()` removes (the ASCII ones). */
  predicate IsSpace(c: char) {
    c == ' ' || c == '\t' || c == '\n' || c == '\r' || c == '\U{000B}' || c == '\U{000C}'
  }

  /** Removes exactly the leading run of white space. */
  function TrimStart(s: string): (r: string)
    ensures |r| <= |s| && r == s[|s| - |r|..]
    ensures r == [] || !IsSpace(r[0])
    ensures forall k :: 0 <= k < |s| - |r| ==> IsSpace(s[k])
    decreases |s|
  {
    if s != [] && IsSpace(s[0]) then TrimStart(s[1..]) else s
  }

  /** Removes exactly the trailing run of white space. */
  function TrimEnd(s: string): (r: string)
    ensures |r| <= |s| && r == s[..|r|]
    ensures r == [] || !IsSpace(r[|r| - 1])
    ensures forall k :: |r| <= k < |s| ==> IsSpace(s[k])
    decreases |s|
  {
    if s != [] && IsSpace(s[|s| - 1]) then TrimEnd(s[..|s| - 1]) else s
  }

  /** `r` is the slice of `s` at `i`, and only white space lies around it. */
  predicate TrimmedAt(s: string, r: string, i: int) {
    && 0 <= i && i + |r| <= |s| && r == s[i..i + |r|]
    && (forall k :: 0 <= k < i ==> IsSpace(s[k]))
    && (forall k :: i + |r| <= k < |s| ==> IsSpace(s[k]))
  }

  /** The validator's `trim()`: a slice of `s` with no white space at
      either end, and only white space cut away. */
  function Trim(s: string): (r: string)
    ensures |r| <= |s|
    ensures r == [] || (!IsSpace(r[0]) && !IsSpace(r[|r| - 1]))
    ensures exists i :: TrimmedAt(s, r, i)
  {
    var a := TrimStart(s);
    var r := TrimEnd(a);
    var i := |s| - |a|;
    assert TrimmedAt(s, r, i);
    r
  }

  /** Text with no white space at either end is its own trim. */
  lemma TrimKeepsUnpadded(s: string)
    requires s != [] && !IsSpace(s[0]) && !IsSpace(s[|s| - 1])
    ensures Trim(s) == s
  {
    var i :| TrimmedAt(s, Trim(s), i);
    assert i == 0;
  }

  /** Text made only of white space trims to nothing. */
  lemma TrimAllSpace(s: string)
    requires forall k :: 0 <= k < |s| ==> IsSpace(s[k])
    ensures Trim(s) == []
  {
    var i :| TrimmedAt(s, Trim(s), i);
  }

  // ---------------------------------------------------------------------
  // LIKE

  /** SQLite's `LIKE` (no ESCAPE clause): `%` matches any run of characters,
      `_` any one character, and letters compare ASCII-case-insensitively. */
  predicate Like(p: string, t: string)
    ensures NoWildcards(p) ==> (Like(p, t) <==> EqualsIgnoringCase(t, p))
    decreases |p| + |t|
  {
    if p == [] then t == []
    else if p[0] == '%' then Like(p[1..], t) || (t != [] && Like(p, t[1..]))
    else
      var r := t != [] && (p[0] == '_' || LowerAscii(p[0]) == LowerAscii(t[0])) && Like(p[1..], t[1..]);
      if t != [] && |p| == |t| then
        EqualsIgnoringCaseCons(t, p);
        assert NoWildcards(p) ==> NoWildcards(p[1..]) by {
          assert forall i :: 0 <= i < |p[1..]| ==> p[1..][i] == p[i + 1];
        }
        r
      else r
  }

  predicate NoWildcards(s: string) {
    forall i :: 0 <= i < |s| ==> s[i] != '%' && s[i] != '_'
  }

  /** ASCII-case-insensitive equality. */
  predicate EqualsIgnoringCase(a: string, b: string) {
    |a| == |b| && forall i :: 0 <= i < |a| ==> LowerAscii(a[i]) == LowerAscii(b[i])
  }

  /** `s` occurs in `t` at index `k`, ignoring ASCII case. */
  predicate OccursIgnoringCaseAt(t: string, s: string, k: int) {
    0 <= k && k + |s| <= |t| && EqualsIgnoringCase(t[k..k + |s|], s)
  }

  /** `s` occurs in `t`, ignoring ASCII case. */
  predicate ContainsIgnoringCase(t: string, s: string) {
    exists k | 0 <= k <= |t| :: OccursIgnoringCaseAt(t, s, k)
  }

  lemma EqualsIgnoringCaseCons(a: string, b: string)
    requires |a| == |b| > 0
    ensures EqualsIgnoringCase(a, b) <==>
      LowerAscii(a[0]) == LowerAscii(b[0]) && EqualsIgnoringCase(a[1..], b[1..])
  {
    if LowerAscii(a[0]) == LowerAscii(b[0]) && EqualsIgnoringCase(a[1..], b[1..]) {
      forall i | 0 <= i < |a| ensures LowerAscii(a[i]) == LowerAscii(b[i]) {
        if i > 0 {
          assert a[i] == a[1..][i - 1] && b[i] == b[1..][i - 1];
        }
      }
    }
  }

  lemma {:induction false} LikePercentMatchesAll(t: string)
    ensures Like("%", t)
    decreases |t|
  {
    assert "%"[1..] == "";
    if t != [] {
      LikePercentMatchesAll(t[1..]);
    }
  }

  /** A wildcard-free pattern followed by `%` is a prefix test. */
  lemma {:induction false} LikePrefix(s: string, t: string)
    requires NoWildcards(s)
    ensures Like(s + "%", t) <==> |s| <= |t| && EqualsIgnoringCase(t[..|s|], s)
    decreases |s|
  {
    if s == [] {
      assert s + "%" == "%";
      LikePercentMatchesAll(t);
    } else {
      var p := s + "%";
      assert p[0] == s[0];
      assert p[1..] == s[1..] + "%";
      assert NoWildcards(s[1..]) by {
        forall i | 0 <= i < |s[1..]| ensures s[1..][i] != '%' && s[1..][i] != '_' {
          assert s[1..][i] == s[i + 1];
        }
      }
      if t != [] {
        LikePrefix(s[1..], t[1..]);
        if |s| <= |t| {
          assert t[1..][..|s[1..]|] == t[..|s|][1..];
          assert t[..|s|][0] == t[0];
          EqualsIgnoringCaseCons(t[..|s|], s);
        }
      }
    }
  }

  /** A leading `%` lets the rest of the pattern match any suffix. */
  lemma {:induction false} LikeLeadingPercent(q: string, t: string)
    ensures Like("%" + q, t) <==> exists k :: 0 <= k <= |t| && Like(q, t[k..])
    decreases |t|
  {
    var p := "%" + q;
    assert p[0] == '%' && p[1..] == q;
    if t == [] {
      assert t[0..] == t;
    } else {
      LikeLeadingPercent(q, t[1..]);
      if Like(p, t) {
        if Like(q, t) {
          assert t[0..] == t;
        } else {
          var k :| 0 <= k <= |t[1..]| && Like(q, t[1..][k..]);
          assert t[1..][k..] == t[k + 1..];
        }
      } else {
        forall k | 0 <= k <= |t| ensures !Like(q, t[k..]) {
          if k == 0 {
            assert t[0..] == t;
          } else {
            assert t[1..][k - 1..] == t[k..];
          }
        }
      }
    }
  }

  /** The search filter `LIKE '%s%'` is a case-insensitive substring test
      whenever the search text `s` holds no wildcard character. */
  lemma SearchPatternIsSubstring(s: string, t: string)
    requires NoWildcards(s)
    ensures Like("%" + s + "%", t) <==> ContainsIgnoringCase(t, s)
  {
    assert "%" + s + "%" == "%" + (s + "%");
    LikeLeadingPercent(s + "%", t);
    if Like("%" + s + "%", t) {
      var k :| 0 <= k <= |t| && Like(s + "%", t[k..]);
      LikePrefix(s, t[k..]);
      assert t[k..][..|s|] == t[k..k + |s|];
      assert OccursIgnoringCaseAt(t, s, k);
    } else {
      forall k | 0 <= k <= |t| ensures !OccursIgnoringCaseAt(t, s, k) {
        LikePrefix(s, t[k..]);
        if k + |s| <= |t| {
          assert t[k..][..|s|] == t[k..k + |s|];
        }
      }
    }
  }

  /** The search text is not escaped: searching for `_` matches every
      non-empty value. */
  lemma UnderscoreSearchMatchesAnyText(t: string)
    ensures Like("%" + "_" + "%", t) <==> t != []
  {
    assert "%" + "_" + "%" == "%" + "_%";
    LikeLeadingPercent("_%", t);
    if t != [] {
      assert "_%"[1..] == "%";
      LikePercentMatchesAll(t[1..]);
      assert t[0..] == t;
    } else {
      assert t[0..] == [];
    }
  }
}
