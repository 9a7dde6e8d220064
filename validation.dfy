/** The pieces of express-validator the route chains use, and the shape of
    Express routing. Every validator sees the field converted to text
    (`ToText`); a chain marked optional is skipped, sanitizers included,
    when the field is absent (or, with `nullable`, null); all validators of
    a chain run, and each failure adds its own message. */
module Validation {
  import opened Common
  import opened Text

  datatype FieldError = FieldError(field: string, message: string)

  /** What the validation middleware lets through: the sanitized body, or
      every message that failed, in chain order. */
  datatype Outcome<T> = Passed(body: T) | Rejected(errors: seq<FieldError>)

  /** The library validators the model does not define. `normalizeEmail`
      gives text; where validator.js answers `false`, which sql.js binds
      as 0, an instantiation that answers "0" stands for it. */
  datatype Checkers = Checkers(isEmail: string -> bool, isURL: string -> bool, normalizeEmail: string -> string)

  /** The error for a failing check, or none. */
  function Check(ok: bool, field: string, message: string): (r: seq<FieldError>)
    ensures ok <==> r == []
    ensures !ok ==> r == [FieldError(field, message)]
  {
    if ok then [] else [FieldError(field, message)]
  }

  // ---------------------------------------------------------------------
  // isLength

  predicate IsVariationSelector(c: char) {
    c == '\U{FE0E}' || c == '\U{FE0F}'
  }

  /** The length `isLength` measures: characters, not counting variation
      selectors. */
  function VisibleLength(s: string): (n: nat)
    ensures n <= |s|
    ensures (forall k :: 0 <= k < |s| ==> !IsVariationSelector(s[k])) ==> n == |s|
    decreases |s|
  {
    if s == [] then 0 else VisibleLength(s[1..]) + (if IsVariationSelector(s[0]) then 0 else 1)
  }

  // ---------------------------------------------------------------------
  // isInt({ min: 0 })

  predicate IsDecimalDigit(c: char) {
    '0' <= c <= '9'
  }

  function Unsigned(t: string): string {
    if t != [] && (t[0] == '-' || t[0] == '+') then t[1..] else t
  }

  /** `/^[-+]?[0-9]+$/`, leading zeros allowed. */
  predicate IsIntText(t: string) {
    |Unsigned(t)| >= 1 && forall k :: 0 <= k < |Unsigned(t)| ==> IsDecimalDigit(Unsigned(t)[k])
  }

  /** An integer text whose value is at least 0: "-0" and "-000" pass. */
  predicate IsNonNegIntText(t: string) {
    IsIntText(t) && (t[0] == '-' ==> forall k :: 0 <= k < |Unsigned(t)| ==> Unsigned(t)[k] == '0')
  }

  lemma NonNegIntTextExamples()
    ensures IsNonNegIntText("0") && IsNonNegIntText("+15") && IsNonNegIntText("007") && IsNonNegIntText("-0")
    ensures !IsNonNegIntText("-1") && !IsNonNegIntText("") && !IsNonNegIntText("1.5") && !IsNonNegIntText("+")
  {
    assert Unsigned("-1") == "1";
    assert Unsigned("1.5") == "1.5" && !IsDecimalDigit("1.5"[1]);
    assert Unsigned("+") == "";
  }

  /** The decimal text of a number passes exactly when the number is not
      negative. */
  lemma NonNegIntTextOfNumber(n: int)
    ensures IsNonNegIntText(IntText(n)) <==> n >= 0
  {
    var m: nat := if n < 0 then -n else n;
    var d := NatText(m);
    if n < 0 {
      assert IntText(n) == "-" + d && Unsigned(IntText(n)) == d;
      assert !(forall k :: 0 <= k < |d| ==> d[k] == '0') by {
        NatTextHasNonZeroDigit(m);
      }
    } else {
      assert IntText(n) == d;
      assert d[0] != '-';
    }
  }

  /** A positive number's digits are not all zero. */
  lemma {:induction false} NatTextHasNonZeroDigit(m: nat)
    requires m > 0
    ensures exists k :: 0 <= k < |NatText(m)| && NatText(m)[k] != '0'
    decreases m
  {
    if m < 10 {
      assert NatText(m)[0] != '0';
    } else if m % 10 != 0 {
      assert NatText(m)[|NatText(m)| - 1] == Digit(m % 10) != '0';
    } else {
      NatTextHasNonZeroDigit(m / 10);
      var k :| 0 <= k < |NatText(m / 10)| && NatText(m / 10)[k] != '0';
      assert NatText(m)[k] == NatText(m / 10)[k];
    }
  }

  // ---------------------------------------------------------------------
  // matches(/^[a-zA-Z0-9_]+$/)

  predicate IsWordChar(c: char) {
    'a' <= c <= 'z' || 'A' <= c <= 'Z' || '0' <= c <= '9' || c == '_'
  }

  predicate IsWord(s: string) {
    |s| >= 1 && forall k :: 0 <= k < |s| ==> IsWordChar(s[k])
  }

  // ---------------------------------------------------------------------
  // the two closed sets as the validators see them

  /** No number renders as a status or a job type: their texts open with a
      letter, a number's with a digit or a minus sign. */
  lemma NumberTextNotListed(n: int)
    ensures IntText(n) !in Statuses && IntText(n) !in JobTypes
  {
    var t := IntText(n);
    assert t[0] == '-' || IsDecimalDigit(t[0]) by {
      if n >= 0 {
        assert '0' <= NatText(n)[0] <= '9';
      }
    }
    forall w | w in Statuses || w in JobTypes ensures t != w {
      assert 'a' <= w[0] <= 'z';
    }
  }

  // ---------------------------------------------------------------------
  // routing

  datatype Verb = Get | Post | Put | Patch | Delete

  /** A piece of a route path: literal text, or a `:name` parameter that
      matches any non-empty segment. A path is the list of its segments
      between slashes, so a trailing slash adds a last, empty segment. */
  datatype Segment = Lit(text: string) | Param(name: string)

  /** Express routers are not case-sensitive by default: a literal matches
      its text in any ASCII case. */
  predicate SegmentMatches(p: Segment, s: string) {
    if p.Lit? then EqualsIgnoringCase(s, p.text) else s != ""
  }

  predicate SegmentsMatch(pattern: seq<Segment>, path: seq<string>) {
    |pattern| == |path| && forall k :: 0 <= k < |path| ==> SegmentMatches(pattern[k], path[k])
  }

  /** Express routers are not strict by default: one trailing slash is
      allowed after the pattern. */
  predicate PathMatches(pattern: seq<Segment>, path: seq<string>) {
    || SegmentsMatch(pattern, path)
    || (|path| > 0 && path[|path| - 1] == "" && SegmentsMatch(pattern, path[..|path| - 1]))
  }

  datatype Route<H> = Route(verb: Verb, pattern: seq<Segment>, guarded: bool, handler: H)

  predicate RouteMatches<H>(r: Route<H>, verb: Verb, path: seq<string>) {
    r.verb == verb && PathMatches(r.pattern, path)
  }

  /** A one-segment route whose segment does not match misses the path. */
  lemma OneSegmentMismatch<H>(r: Route<H>, verb: Verb, s: string)
    requires |r.pattern| == 1 && !SegmentMatches(r.pattern[0], s)
    ensures !RouteMatches(r, verb, [s])
  {
    assert [s][0] == s;
  }

  /** A route that opens with a parameter binds it to the first segment of
      the path, which is not empty. */
  lemma ParamBindsFirstSegment<H>(r: Route<H>, verb: Verb, path: seq<string>)
    requires RouteMatches(r, verb, path) && |r.pattern| >= 1 && r.pattern[0].Param?
    ensures |path| >= 1 && path[0] != ""
  {
    if !SegmentsMatch(r.pattern, path) {
      assert path[..|path| - 1][0] == path[0];
    }
  }

  /** Express tries the routes in the order they were declared. */
  function FirstMatch<H>(routes: seq<Route<H>>, verb: Verb, path: seq<string>): (r: Option<nat>)
    ensures r.Some? ==> r.value < |routes| && RouteMatches(routes[r.value], verb, path)
    ensures r.Some? ==> forall k :: 0 <= k < r.value ==> !RouteMatches(routes[k], verb, path)
    ensures r.None? <==> forall k :: 0 <= k < |routes| ==> !RouteMatches(routes[k], verb, path)
    decreases |routes|
  {
    if routes == [] then None
    else if RouteMatches(routes[0], verb, path) then Some(0)
    else
      var r := FirstMatch(routes[1..], verb, path);
      assert forall k :: 1 <= k < |routes| ==> routes[k] == routes[1..][k - 1];
      if r.None? then None else Some(r.value + 1)
  }

  /** Two paths that every route matches alike reach the same route. */
  lemma {:induction false} FirstMatchAlike<H>(routes: seq<Route<H>>, verb: Verb, p: seq<string>, q: seq<string>)
    requires forall k :: 0 <= k < |routes| ==> (RouteMatches(routes[k], verb, p) <==> RouteMatches(routes[k], verb, q))
    ensures FirstMatch(routes, verb, p) == FirstMatch(routes, verb, q)
    decreases |routes|
  {
    if routes != [] && !RouteMatches(routes[0], verb, p) {
      var rest := routes[1..];
      forall k | 0 <= k < |rest| ensures RouteMatches(rest[k], verb, p) <==> RouteMatches(rest[k], verb, q) {
        assert rest[k] == routes[k + 1];
      }
      FirstMatchAlike(rest, verb, p, q);
    }
  }

  /** No segment of any route matches the empty segment. */
  predicate NoEmptySegment<H>(routes: seq<Route<H>>) {
    forall k, j :: 0 <= k < |routes| && 0 <= j < |routes[k].pattern| ==> !SegmentMatches(routes[k].pattern[j], "")
  }

  /** With such routes, a trailing slash reaches the route the path without
      it reaches. */
  lemma TrailingSlashIgnored<H>(routes: seq<Route<H>>, verb: Verb, path: seq<string>)
    requires NoEmptySegment(routes)
    requires path == [] || path[|path| - 1] != ""
    ensures FirstMatch(routes, verb, path + [""]) == FirstMatch(routes, verb, path)
  {
    var q := path + [""];
    assert q[..|q| - 1] == path;
    forall k | 0 <= k < |routes| ensures RouteMatches(routes[k], verb, q) <==> RouteMatches(routes[k], verb, path) {
      var pat := routes[k].pattern;
      assert !SegmentsMatch(pat, q) by {
        if |pat| == |q| {
          assert q[|path|] == "" && !SegmentMatches(pat[|path|], q[|path|]);
        }
      }
    }
    FirstMatchAlike(routes, verb, q, path);
  }
}
