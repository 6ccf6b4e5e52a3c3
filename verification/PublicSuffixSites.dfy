/** Sites derived from the matcher: refinement under growing rule lists, idempotence, and reading a rule list. */
module PublicSuffixSites {
  import opened Geometry
  import opened PublicSuffix

  // ---- suffixes of a host ---------------------------------------------------------------------------------------------

  /** A longest hit that fits in a suffix of the labels is the longest hit of that suffix. */
  lemma {:induction false} LongestOnSuffix(list: RuleList, labels: seq<Label>, n: nat)
    requires n <= |labels|
    ensures LongestException(list, labels) <= n ==>
              LongestException(list, LastLabels(labels, n)) == LongestException(list, labels)
    ensures LongestRule(list, labels) <= n ==>
              LongestRule(list, LastLabels(labels, n)) == LongestRule(list, labels)
  {
    if n == |labels| {
      assert LastLabels(labels, n) == labels;
    } else {
      LongestOnSuffix(list, labels[1..], n);
      assert LastLabels(labels[1..], n) == LastLabels(labels, n);
    }
  }

  lemma LastOfLast(labels: seq<Label>, n: nat, m: nat)
    requires m <= n <= |labels|
    ensures LastLabels(LastLabels(labels, n), m) == LastLabels(labels, m)
  {}

  /** Every rule and wildcard of `small` is in `big`, and the exceptions are the same. */
  predicate Grows(small: RuleList, big: RuleList) {
    small.rules <= big.rules && small.wildcards <= big.wildcards && small.exceptions == big.exceptions
  }

  lemma {:induction false} LongestGrows(small: RuleList, big: RuleList, labels: seq<Label>)
    requires Grows(small, big)
    ensures LongestRule(small, labels) <= LongestRule(big, labels)
    ensures LongestException(small, labels) == LongestException(big, labels)
  {
    if |labels| > 0 { LongestGrows(small, big, labels[1..]); }
  }

  // ---- growing the list only refines sites ------------------------------------------------------------------------------

  lemma ResultIsSuffix(list: RuleList, labels: seq<Label>, d: seq<Label>)
    requires RegistrableLabels(list, labels) == Some(d)
    ensures |d| == SuffixLength(list, labels) + 1 <= |labels| && d == LastLabels(labels, |d|)
  {}

  /** A registrable domain that came from an exception is that exception; any host ending in it has the same one. */
  lemma ExceptionIsShared(list: RuleList, a: seq<Label>, b: seq<Label>, d: seq<Label>)
    requires RegistrableLabels(list, a) == Some(d) && RegistrableLabels(list, b) == Some(d)
    requires LongestException(list, a) > 0
    ensures LongestException(list, b) == LongestException(list, a) == |d|
  {
    LongestExceptionIs(list, a);
    LongestExceptionIs(list, b);
    assert IsException(list, d) && d == LastLabels(b, |d|);
  }

  /** The public suffix length where no exception applies. */
  function RuleSuffix(list: RuleList, labels: seq<Label>): nat {
    if LongestRule(list, labels) > 0 then LongestRule(list, labels) else 1
  }

  /** A smaller rule list has a public suffix that is no longer. */
  lemma RuleSuffixShrinks(small: RuleList, big: RuleList, a: seq<Label>)
    requires Grows(small, big) && LongestException(big, a) == 0
    ensures LongestException(small, a) == 0 && RuleSuffix(small, a) <= RuleSuffix(big, a) == SuffixLength(big, a)
  {
    LongestGrows(small, big, a);
  }

  /** Without an exception, the longest rule, or one label, decides. */
  lemma RegistrableByRules(list: RuleList, labels: seq<Label>, k: nat)
    requires LongestException(list, labels) == 0 && k == RuleSuffix(list, labels) < |labels|
    ensures RegistrableLabels(list, labels) == Some(LastLabels(labels, k + 1))
  {}

  lemma RuleSuffixOnSuffix(list: RuleList, labels: seq<Label>, n: nat)
    requires RuleSuffix(list, labels) <= n <= |labels|
    ensures RuleSuffix(list, LastLabels(labels, n)) == RuleSuffix(list, labels)
  {
    LongestOnSuffix(list, labels, n);
  }

  /** Under a smaller rule list, the registrable domain of a host is found within the one it had. */
  lemma CoarserDomain(small: RuleList, big: RuleList, a: seq<Label>, d: seq<Label>)
    requires Grows(small, big) && RegistrableLabels(big, a) == Some(d)
    requires LongestException(big, a) == 0
    ensures RuleSuffix(small, d) < |d|
    ensures RegistrableLabels(small, a) == Some(LastLabels(d, RuleSuffix(small, d) + 1))
  {
    ResultIsSuffix(big, a, d);
    RuleSuffixShrinks(small, big, a);
    RuleSuffixOnSuffix(small, a, |d|);
    RegistrableByRules(small, a, RuleSuffix(small, a));
    LastOfLast(a, |d|, RuleSuffix(small, a) + 1);
  }

  /** Growing the rule and wildcard sets only separates sites: two label lists that share a registrable domain under
      the larger list share one under the smaller. */
  lemma GrowingListRefinesLabels(small: RuleList, big: RuleList, a: seq<Label>, b: seq<Label>, d: seq<Label>)
    requires Grows(small, big)
    requires RegistrableLabels(big, a) == Some(d) && RegistrableLabels(big, b) == Some(d)
    ensures RegistrableLabels(small, a).Some? && RegistrableLabels(small, a) == RegistrableLabels(small, b)
  {
    LongestGrows(small, big, a);
    LongestGrows(small, big, b);
    if LongestException(big, a) > 0 {
      ExceptionIsShared(big, a, b, d);
    } else if LongestException(big, b) > 0 {
      ExceptionIsShared(big, b, a, d);
    } else {
      CoarserDomain(small, big, a, d);
      CoarserDomain(small, big, b, d);
    }
  }

  lemma JoinInjective(a: seq<Label>, b: seq<Label>)
    requires |a| > 0 && |b| > 0 && AllDotFree(a) && AllDotFree(b) && Join(a) == Join(b)
    ensures a == b
  {
    SplitJoin(a);
    SplitJoin(b);
  }

  /** Two hosts of one site under a larger list are of one site under any smaller one: using more of the list
      over-separates rather than under-separates. */
  lemma GrowingListRefinesSites(small: RuleList, big: RuleList, isIp: string -> bool, a: string, b: string)
    requires Grows(small, big)
    requires RegistrableDomain(big, isIp, a).Some?
    requires RegistrableDomain(big, isIp, a) == RegistrableDomain(big, isIp, b)
    ensures RegistrableDomain(small, isIp, a).Some?
    ensures RegistrableDomain(small, isIp, a) == RegistrableDomain(small, isIp, b)
  {
    var d := DomainLabels(big, isIp, a);
    var d' := DomainLabels(big, isIp, b);
    JoinInjective(d, d');
    GrowingListRefinesLabels(small, big, Split(Normalized(a)), Split(Normalized(b)), d);
  }

  /** The labels a registrable domain was joined from. */
  lemma DomainLabels(list: RuleList, isIp: string -> bool, host: string) returns (d: seq<Label>)
    requires RegistrableDomain(list, isIp, host).Some?
    ensures RegistrableLabels(list, Split(Normalized(host))) == Some(d)
    ensures |d| > 0 && AllDotFree(d) && RegistrableDomain(list, isIp, host) == Some(Join(d))
  {
    var labels := Split(Normalized(host));
    d := RegistrableLabels(list, labels).value;
    SplitParts(Normalized(host));
    ResultIsSuffix(list, labels, d);
  }

  // ---- idempotence ----------------------------------------------------------------------------------------------------

  /** The registrable domain of a registrable domain of two labels or more is itself. */
  lemma LabelsIdempotent(list: RuleList, labels: seq<Label>, d: seq<Label>)
    requires RegistrableLabels(list, labels) == Some(d) && |d| >= 2
    ensures RegistrableLabels(list, d) == Some(d)
  {
    ResultIsSuffix(list, labels, d);
    SuffixLengthOnSuffix(list, labels, |d|);
    WholeIsRegistrable(list, d);
  }

  /** A suffix long enough for the deciding hit has the same public suffix. */
  lemma SuffixLengthOnSuffix(list: RuleList, labels: seq<Label>, n: nat)
    requires n <= |labels| && LongestException(list, labels) <= n
    requires LongestException(list, labels) == 0 ==> LongestRule(list, labels) <= n
    ensures SuffixLength(list, LastLabels(labels, n)) == SuffixLength(list, labels)
  {
    LongestOnSuffix(list, labels, n);
  }

  lemma WholeIsRegistrable(list: RuleList, d: seq<Label>)
    requires |d| >= 2 && SuffixLength(list, d) == |d| - 1
    ensures RegistrableLabels(list, d) == Some(d)
  {
    assert LastLabels(d, |d|) == d;
  }

  lemma {:induction false} NoDotAtEnds(labels: seq<Label>)
    requires |labels| > 0 && AllDotFree(labels)
    ensures labels[|labels| - 1] != "" ==> Join(labels) != "" && Join(labels)[|Join(labels)| - 1] != '.'
    ensures Join(labels) != "" ==> (Join(labels)[0] == '.' <==> |labels| > 1 && labels[0] == "")
  {
    if |labels| > 1 { NoDotAtEnds(labels[1..]); }
  }

  lemma {:induction false} TrimEndStops(s: string)
    ensures TrimEnd(s, IsDot) != "" ==> TrimEnd(s, IsDot)[|TrimEnd(s, IsDot)| - 1] != '.'
    ensures |TrimEnd(s, IsDot)| <= |s|
  {
    if |s| > 0 && s[|s| - 1] == '.' { TrimEndStops(s[..|s| - 1]); }
  }

  lemma {:induction false} TrimStartShortens(s: string)
    ensures |TrimStart(s, IsDot)| <= |s|
  {
    if |s| > 0 && s[0] == '.' { TrimStartShortens(s[1..]); }
  }

  predicate IsLower(s: string) { forall i :: 0 <= i < |s| ==> !('A' <= s[i] <= 'Z') }

  lemma LowerIsLower(s: string)
    ensures IsLower(Lower(s)) && (IsLower(s) ==> Lower(s) == s)
  {}

  lemma {:induction false} JoinChars(labels: seq<Label>, n: nat)
    requires n <= |labels| && IsLower(Join(labels))
    ensures IsLower(Join(LastLabels(labels, n)))
  {
    if n == |labels| {
      assert LastLabels(labels, n) == labels;
    } else {
      assert forall i :: 0 <= i < |Join(labels[1..])| ==>
          Join(labels[1..])[i] == (if |labels| > 1 then Join(labels)[|labels[0]| + 1 + i] else 'a');
      JoinChars(labels[1..], n);
      assert LastLabels(labels[1..], n) == LastLabels(labels, n);
    }
  }

  lemma {:induction false} HasDotIffTwoLabels(labels: seq<Label>)
    requires |labels| > 0 && AllDotFree(labels)
    ensures '.' in Join(labels) <==> |labels| >= 2
  {}

  /** A normalized host is lower case and has no trailing dot. */
  lemma NormalizedShape(host: string)
    ensures IsLower(Normalized(host))
    ensures Normalized(host) != "" ==> Normalized(host)[|Normalized(host)| - 1] != '.'
  {
    TrimEndStops(TrimStart(host, IsDot));
    LowerIsLower(TrimDots(host));
  }

  /** What the result of a derivation looks like: lower case, no trailing dot, and its labels. */
  lemma ResultShape(list: RuleList, isIp: string -> bool, host: string, d: seq<Label>)
    requires Normalized(host) != "" && RegistrableLabels(list, Split(Normalized(host))) == Some(d)
    ensures |d| > 0 && AllDotFree(d) && Split(Join(d)) == d
    ensures Join(d) != "" && Join(d)[|Join(d)| - 1] != '.' && IsLower(Join(d))
    ensures '.' in Join(d) <==> |d| >= 2
  {
    var labels := Split(Normalized(host));
    ResultIsSuffix(list, labels, d);
    SplitParts(Normalized(host));
    NormalizedShape(host);
    LastLabelNonEmpty(labels);
    SuffixShape(labels, |d|);
    SplitJoin(d);
  }

  lemma SuffixShape(labels: seq<Label>, n: nat)
    requires 0 < n <= |labels| && AllDotFree(labels) && IsLower(Join(labels)) && labels[|labels| - 1] != ""
    ensures var d := LastLabels(labels, n);
            && Join(d) != "" && Join(d)[|Join(d)| - 1] != '.' && IsLower(Join(d))
            && ('.' in Join(d) <==> n >= 2)
  {
    var d := LastLabels(labels, n);
    assert d[n - 1] == labels[|labels| - 1];
    NoDotAtEnds(d);
    HasDotIffTwoLabels(d);
    JoinChars(labels, n);
  }

  lemma {:induction false} LastLabelNonEmpty(labels: seq<Label>)
    requires |labels| > 0 && AllDotFree(labels)
    requires Join(labels) != "" && Join(labels)[|Join(labels)| - 1] != '.'
    ensures labels[|labels| - 1] != ""
  {
    if |labels| > 1 {
      var rest := Join(labels[1..]);
      assert Join(labels)[|labels[0]|] == '.';
      if rest != "" {
        assert rest[|rest| - 1] == Join(labels)[|Join(labels)| - 1];
        LastLabelNonEmpty(labels[1..]);
      }
    }
  }

  /** Deriving again changes nothing if and only if the result begins with a label, has two, and is no IP literal. An
      empty label inside a host, or an exception of a single label, is what makes it differ. */
  lemma IdempotentIff(list: RuleList, isIp: string -> bool, host: string)
    requires RegistrableDomain(list, isIp, host).Some?
    ensures var d := RegistrableDomain(list, isIp, host).value;
            && d != ""
            && (RegistrableDomain(list, isIp, d) == Some(d) <==> d[0] != '.' && '.' in d && !isIp(d))
  {
    var labels := RegistrableLabels(list, Split(Normalized(host))).value;
    var d := Join(labels);
    ResultShape(list, isIp, host, labels);
    LowerIsLower(d);
    if d[0] != '.' {
      assert TrimDots(d) == d;
      if |labels| >= 2 { LabelsIdempotent(list, Split(Normalized(host)), labels); }
    } else {
      TrimStartShortens(d[1..]);
      TrimEndStops(TrimStart(d, IsDot));
      assert |Normalized(d)| < |d|;
      ResultIsNoLonger(list, isIp, d);
    }
  }

  lemma {:induction false} LastIsShorter(labels: seq<Label>, n: nat)
    requires n <= |labels|
    ensures |Join(LastLabels(labels, n))| <= |Join(labels)|
  {
    if n == |labels| {
      assert LastLabels(labels, n) == labels;
    } else {
      LastIsShorter(labels[1..], n);
      assert LastLabels(labels[1..], n) == LastLabels(labels, n);
    }
  }

  lemma ResultIsNoLonger(list: RuleList, isIp: string -> bool, host: string)
    ensures RegistrableDomain(list, isIp, host).Some? ==>
              |RegistrableDomain(list, isIp, host).value| <= |Normalized(host)|
  {
    var labels := Split(Normalized(host));
    SplitParts(Normalized(host));
    var k := SuffixLength(list, labels);
    if k < |labels| { LastIsShorter(labels, k + 1); }
  }

  // ---- idempotence as a condition on the list and the host --------------------------------------------------------------

  /** The derivation begins its result at an empty label of the host. */
  predicate BeginsAtEmptyLabel(list: RuleList, labels: seq<Label>) {
    var k := SuffixLength(list, labels);
    k < |labels| && labels[|labels| - k - 1] == ""
  }

  /** The exception that decides the host's suffix is a single label. */
  predicate DecidedByBareException(list: RuleList, labels: seq<Label>) {
    |labels| > 0 && IsException(list, LastLabels(labels, 1))
    && forall n :: 1 < n <= |labels| ==> !IsException(list, LastLabels(labels, n))
  }

  lemma BareExceptionIff(list: RuleList, labels: seq<Label>)
    requires |labels| > 0
    ensures DecidedByBareException(list, labels) <==> SuffixLength(list, labels) == 0
  {
    LongestExceptionIs(list, labels);
  }

  lemma StartsWithDotIff(d: seq<Label>)
    requires |d| > 0 && AllDotFree(d) && Join(d) != ""
    ensures Join(d)[0] == '.' <==> d[0] == ""
  {
    NoDotAtEnds(d);
  }

  /** For a host with a registrable domain, deriving again changes nothing if and only if the result does not begin at
      an empty label of the host, no single-label exception decides its suffix, and the result is no IP literal. */
  lemma IdempotentIffOnHost(list: RuleList, isIp: string -> bool, host: string)
    requires RegistrableDomain(list, isIp, host).Some?
    ensures var d, labels := RegistrableDomain(list, isIp, host).value, Split(Normalized(host));
            RegistrableDomain(list, isIp, d) == Some(d)
            <==> !BeginsAtEmptyLabel(list, labels) && !DecidedByBareException(list, labels) && !isIp(d)
  {
    var labels := Split(Normalized(host));
    var d := RegistrableLabels(list, labels).value;
    IdempotentIff(list, isIp, host);
    ResultShape(list, isIp, host, d);
    StartsWithDotIff(d);
    BareExceptionIff(list, labels);
  }

  /** Under a list whose exceptions all have a dot, a host without empty labels derives a domain that derives itself,
      unless it is an IP literal. */
  lemma OrdinaryHostsAreIdempotent(list: RuleList, isIp: string -> bool, host: string)
    requires RegistrableDomain(list, isIp, host).Some?
    requires forall e :: e in list.exceptions ==> '.' in e
    requires forall i :: 0 <= i < |Split(Normalized(host))| ==> Split(Normalized(host))[i] != ""
    ensures var d := RegistrableDomain(list, isIp, host).value;
            RegistrableDomain(list, isIp, d) == Some(d) <==> !isIp(d)
  {
    var labels := Split(Normalized(host));
    IdempotentIffOnHost(list, isIp, host);
    SplitParts(Normalized(host));
    assert LastLabels(labels, 1) == [labels[|labels| - 1]];
    HasDotIffTwoLabels(LastLabels(labels, 1));
  }

  lemma NormalHost(host: string)
    requires host != "" && host[0] != '.' && host[|host| - 1] != '.' && IsLower(host)
    ensures Normalized(host) == host
  {
    LowerIsLower(host);
  }

  /** A host of one label has no registrable domain. */
  lemma OneLabelHasNone(list: RuleList, isIp: string -> bool, host: string)
    requires DotFree(Normalized(host))
    ensures RegistrableDomain(list, isIp, host) == None
  {
    SplitDotFree(Normalized(host));
  }

  lemma DerivesLast(list: RuleList, isIp: string -> bool, host: string, labels: seq<Label>, k: nat)
    requires host != "" && host[0] != '.' && host[|host| - 1] != '.' && IsLower(host) && !isIp(host)
    requires |labels| >= 2 && AllDotFree(labels) && Join(labels) == host
    requires SuffixLength(list, labels) == k < |labels|
    ensures RegistrableDomain(list, isIp, host) == Some(Join(LastLabels(labels, k + 1)))
  {
    NormalHost(host);
    SplitJoin(labels);
  }

  /** A non-empty lower-case label. */
  predicate PlainLabel(a: Label) { a != "" && DotFree(a) && IsLower(a) }

  lemma JoinTwo(a: Label, b: Label)
    ensures Join([a, b]) == a + "." + b
  {
    assert [a, b][1..] == [b];
  }

  lemma JoinThree(a: Label, b: Label, c: Label)
    ensures Join([a, b, c]) == a + "." + (b + "." + c)
  {
    assert [a, b, c][1..] == [b, c];
    JoinTwo(b, c);
  }

  lemma {:induction false} NoExceptions(list: RuleList, labels: seq<Label>)
    requires list.exceptions == {}
    ensures LongestException(list, labels) == 0
  {
    if |labels| > 0 { NoExceptions(list, labels[1..]); }
  }

  /** Where the last label is the only rule or the only exception, it is the longest hit there is. */
  lemma {:induction false} LastLabelHits(list: RuleList, labels: seq<Label>, c: Label)
    requires |labels| > 0 && AllDotFree(labels) && labels[|labels| - 1] == c && list.wildcards == {}
    ensures list.rules == {c} ==> LongestRule(list, labels) == 1
    ensures list.exceptions == {c} ==> LongestException(list, labels) == 1
  {
    if |labels| > 1 {
      LastLabelHits(list, labels[1..], c);
      HasDotIffTwoLabels(labels);
    }
  }

  /** An empty label inside a host, `a..com`: under the rule `com` it derives `.com`, which derives nothing. */
  lemma EmptyLabelIsNotIdempotent(isIp: string -> bool, a: Label, c: Label)
    requires PlainLabel(a) && PlainLabel(c) && !isIp(Join([a, "", c]))
    ensures var list := RuleList({c}, {}, {});
            && RegistrableDomain(list, isIp, Join([a, "", c])) == Some("." + c)
            && RegistrableDomain(list, isIp, "." + c) == None
  {
    var list, labels := RuleList({c}, {}, {}), [a, "", c];
    JoinThree(a, "", c);
    NoExceptions(list, labels);
    LastLabelHits(list, labels, c);
    DerivesLast(list, isIp, Join(labels), labels, 1);
    assert LastLabels(labels, 2) == ["", c];
    JoinTwo("", c);
    assert "" + "." + c == "." + c;
    DottedNormal(c);
    OneLabelHasNone(list, isIp, "." + c);
  }

  lemma DottedNormal(c: Label)
    requires PlainLabel(c)
    ensures Normalized("." + c) == c
  {
    assert ("." + c)[1..] == c;
    NormalHost(c);
  }

  /** An exception of a single label: under `!com`, `a.com` derives `com`, which derives nothing. */
  lemma BareExceptionIsNotIdempotent(isIp: string -> bool, a: Label, c: Label)
    requires PlainLabel(a) && PlainLabel(c) && !isIp(Join([a, c]))
    ensures var list := RuleList({}, {}, {c});
            && RegistrableDomain(list, isIp, Join([a, c])) == Some(c)
            && RegistrableDomain(list, isIp, c) == None
  {
    var list, labels := RuleList({}, {}, {c}), [a, c];
    JoinTwo(a, c);
    LastLabelHits(list, labels, c);
    DerivesLast(list, isIp, Join(labels), labels, 0);
    assert LastLabels(labels, 1) == [c];
    NormalHost(c);
    OneLabelHasNone(list, isIp, c);
  }

  /** The two at real hosts. */
  lemma NotIdempotentAt(isIp: string -> bool)
    requires !isIp("a..com") && !isIp("a.com")
    ensures RegistrableDomain(RuleList({"com"}, {}, {}), isIp, "a..com") == Some(".com")
    ensures RegistrableDomain(RuleList({"com"}, {}, {}), isIp, ".com") == None
    ensures RegistrableDomain(RuleList({}, {}, {"com"}), isIp, "a.com") == Some("com")
    ensures RegistrableDomain(RuleList({}, {}, {"com"}), isIp, "com") == None
  {
    var a, c := "a", "com";
    JoinThree(a, "", c);
    JoinTwo(a, c);
    assert a + "." + ("" + "." + c) == "a..com" && a + "." + c == "a.com" && "." + c == ".com";
    EmptyLabelIsNotIdempotent(isIp, a, c);
    BareExceptionIsNotIdempotent(isIp, a, c);
  }

  // ---- reading a rule list --------------------------------------------------------------------------------------------

  /** The lines of a text: what stands before each newline, and what stands after the last one if anything does. */
  function Lines(text: string): seq<string> {
    if |text| == 0 then []
    else
      var rest := Lines(text[1..]);
      if text[0] == '\n' then [""] + rest
      else if |rest| == 0 then [[text[0]]]
      else [[text[0]] + rest[0]] + rest[1..]
  }

  predicate IsLine(s: string) { '\n' !in s }

  lemma {:induction false} LineThen(line: string, rest: string)
    requires IsLine(line)
    ensures Lines(line + "\n" + rest) == [line] + Lines(rest)
  {
    var text := line + "\n" + rest;
    if line == "" {
      assert text[1..] == rest;
    } else {
      assert text[1..] == line[1..] + "\n" + rest;
      LineThen(line[1..], rest);
      assert [line[0]] + line[1..] == line;
    }
  }

  lemma {:induction false} LastLine(line: string)
    requires IsLine(line)
    ensures Lines(line) == if line == "" then [] else [line]
  {
    if line != "" {
      var rest := line[1..];
      LastLine(rest);
      assert line == [line[0]] + rest;
      if rest == "" { assert line == [line[0]]; }
    }
  }

  /** Lines one after another, each with its newline. */
  function Terminated(lines: seq<string>): string {
    if |lines| == 0 then "" else lines[0] + "\n" + Terminated(lines[1..])
  }

  /** A text's lines are those it was put together from; an unfinished last one counts when it is not empty. */
  lemma {:induction false} LinesOfTerminated(lines: seq<string>, last: string)
    requires (forall i :: 0 <= i < |lines| ==> IsLine(lines[i])) && IsLine(last)
    ensures Lines(Terminated(lines) + last) == lines + if last == "" then [] else [last]
  {
    if |lines| == 0 {
      assert Terminated(lines) + last == last;
      LastLine(last);
    } else {
      LinesOfTerminated(lines[1..], last);
      LineThen(lines[0], Terminated(lines[1..]) + last);
      assert Terminated(lines) + last == lines[0] + "\n" + (Terminated(lines[1..]) + last);
      assert lines == [lines[0]] + lines[1..];
    }
  }

  /** A line without a carriage return at its end, and then without white space at either end. */
  function Trimmed(line: string, isSpace: char -> bool): string {
    Trim(if |line| > 0 && line[|line| - 1] == '\r' then line[..|line| - 1] else line, isSpace)
  }

  datatype Line = Nothing | ExceptionLine(domain: string) | WildcardLine(base: string) | NormalLine(domain: string)

  predicate StartsWith(s: string, prefix: string) { |prefix| <= |s| && s[..|prefix|] == prefix }

  /** What a trimmed line says: blank and comment lines say nothing; the prefix decides the kind of rule. */
  function ReadLine(line: string): Line {
    if line == "" || StartsWith(line, "//") then Nothing
    else if StartsWith(line, "!") then ExceptionLine(line[1..])
    else if StartsWith(line, "*.") then WildcardLine(line[2..])
    else NormalLine(line)
  }

  /** A line's rule with its name in ASCII form; a name that has none is dropped. */
  function Entry(line: string, isSpace: char -> bool, toAscii: string -> Option<string>): Line {
    match ReadLine(Trimmed(line, isSpace))
    case Nothing => Nothing
    case ExceptionLine(domain) =>
      var ascii := toAscii(domain);
      if ascii.Some? then ExceptionLine(ascii.value) else Nothing
    case WildcardLine(base) =>
      var ascii := toAscii(base);
      if ascii.Some? then WildcardLine(ascii.value) else Nothing
    case NormalLine(domain) =>
      var ascii := toAscii(domain);
      if ascii.Some? then NormalLine(ascii.value) else Nothing
  }

  lemma Stripped(text: string, prefix: string, d: string)
    ensures text == prefix + d <==> StartsWith(text, prefix) && d == text[|prefix|..]
  {
    if StartsWith(text, prefix) { assert text == prefix + text[|prefix|..]; }
  }

  /** The text is the prefix and a name whose ASCII form is `ascii`. */
  predicate Names(text: string, prefix: string, name: string, toAscii: string -> Option<string>, ascii: string) {
    text == prefix + name && toAscii(name) == Some(ascii)
  }

  lemma NamesIff(text: string, prefix: string, toAscii: string -> Option<string>, ascii: string)
    ensures (exists d :: Names(text, prefix, d, toAscii, ascii))
            <==> StartsWith(text, prefix) && toAscii(text[|prefix|..]) == Some(ascii)
  {
    forall d { Stripped(text, prefix, d); }
    if StartsWith(text, prefix) && toAscii(text[|prefix|..]) == Some(ascii) {
      Stripped(text, prefix, text[|prefix|..]);
      assert Names(text, prefix, text[|prefix|..], toAscii, ascii);
    }
  }

  /** What a line adds: after `!` an exception, after `*.` a wildcard base, and any other line that is neither empty nor
      a comment a rule, each by its name in ASCII form. */
  lemma EntryIff(line: string, isSpace: char -> bool, toAscii: string -> Option<string>, ascii: string)
    ensures var text, entry := Trimmed(line, isSpace), Entry(line, isSpace, toAscii);
            && (entry == ExceptionLine(ascii) <==> exists d :: Names(text, "!", d, toAscii, ascii))
            && (entry == WildcardLine(ascii) <==> exists d :: Names(text, "*.", d, toAscii, ascii))
            && (entry == NormalLine(ascii) <==>
                  && text != "" && toAscii(text) == Some(ascii)
                  && !StartsWith(text, "//") && !StartsWith(text, "!") && !StartsWith(text, "*."))
  {
    var text := Trimmed(line, isSpace);
    NamesIff(text, "!", toAscii, ascii);
    NamesIff(text, "*.", toAscii, ascii);
    assert StartsWith(text, "!") ==> text[0] == '!';
    assert StartsWith(text, "*.") ==> text[0] == "*."[0];
    assert StartsWith(text, "//") ==> text[0] == "//"[0];
  }

  function Entries(lines: seq<string>, isSpace: char -> bool, toAscii: string -> Option<string>): set<Line> {
    set i | 0 <= i < |lines| :: Entry(lines[i], isSpace, toAscii)
  }

  /** Each of the three sets holds exactly the names of the entries of its kind. */
  ghost predicate Holds(list: RuleList, entries: set<Line>) {
    forall s :: (s in list.exceptions <==> ExceptionLine(s) in entries)
                && (s in list.wildcards <==> WildcardLine(s) in entries)
                && (s in list.rules <==> NormalLine(s) in entries)
  }

  method Parse(text: string, isSpace: char -> bool, toAscii: string -> Option<string>) returns (list: RuleList)
    ensures Holds(list, Entries(Lines(text), isSpace, toAscii))
  {
    var lines := Lines(text);
    var rules, wildcards, exceptions: set<string> := {}, {}, {};
    for i := 0 to |lines|
      invariant Holds(RuleList(rules, wildcards, exceptions), Entries(lines[..i], isSpace, toAscii))
    {
      EntriesGrow(lines, i, isSpace, toAscii);
      match ReadLine(Trimmed(lines[i], isSpace)) {
        case Nothing =>
        case ExceptionLine(domain) =>
          var ascii := toAscii(domain);
          if ascii.Some? { exceptions := exceptions + {ascii.value}; }
        case WildcardLine(base) =>
          var ascii := toAscii(base);
          if ascii.Some? { wildcards := wildcards + {ascii.value}; }
        case NormalLine(domain) =>
          var ascii := toAscii(domain);
          if ascii.Some? { rules := rules + {ascii.value}; }
      }
    }
    assert lines[..|lines|] == lines;
    list := RuleList(rules, wildcards, exceptions);
  }

  lemma EntriesGrow(lines: seq<string>, i: nat, isSpace: char -> bool, toAscii: string -> Option<string>)
    requires i < |lines|
    ensures Entries(lines[..i + 1], isSpace, toAscii)
         == Entries(lines[..i], isSpace, toAscii) + {Entry(lines[i], isSpace, toAscii)}
  {}
}
