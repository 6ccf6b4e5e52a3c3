/** The public-suffix matcher over arbitrary rule, wildcard and exception sets. */
module PublicSuffix {
  import opened Geometry

  type Label = string

  /** Rule sets by kind, as strings of dot-joined labels; a wildcard rule `*.base` is stored as its base. */
  datatype RuleList = RuleList(rules: set<string>, wildcards: set<string>, exceptions: set<string>)

  // ---- hosts and labels ---------------------------------------------------------------------------------------------

  predicate DotFree(s: string) { '.' !in s }

  predicate AllDotFree(labels: seq<Label>) { forall i :: 0 <= i < |labels| ==> DotFree(labels[i]) }

  function Join(labels: seq<Label>): string {
    if |labels| == 0 then ""
    else if |labels| == 1 then labels[0]
    else labels[0] + "." + Join(labels[1..])
  }

  /** Splits at every dot; the empty string is one empty label. */
  function Split(s: string): (labels: seq<Label>)
    ensures |labels| >= 1
  {
    if |s| == 0 then [""]
    else
      var rest := Split(s[1..]);
      if s[0] == '.' then [""] + rest else [[s[0]] + rest[0]] + rest[1..]
  }

  function TrimStart(s: string, drop: char -> bool): string { if |s| > 0 && drop(s[0]) then TrimStart(s[1..], drop) else s }

  function TrimEnd(s: string, drop: char -> bool): string {
    if |s| > 0 && drop(s[|s| - 1]) then TrimEnd(s[..|s| - 1], drop) else s
  }

  function Trim(s: string, drop: char -> bool): string { TrimEnd(TrimStart(s, drop), drop) }

  predicate IsDot(c: char) { c == '.' }

  function TrimDots(s: string): string { Trim(s, IsDot) }

  function LowerChar(c: char): char { if 'A' <= c <= 'Z' then c - 'A' + 'a' else c }

  function Lower(s: string): string { seq(|s|, i requires 0 <= i < |s| => LowerChar(s[i])) }

  function Normalized(host: string): string { Lower(TrimDots(host)) }

  lemma {:induction false} TrimStartIs(s: string, drop: char -> bool) returns (from: nat)
    ensures from <= |s| && TrimStart(s, drop) == s[from..] && forall i :: 0 <= i < from ==> drop(s[i])
    ensures from < |s| ==> !drop(s[from])
  {
    from := 0;
    if |s| > 0 && drop(s[0]) {
      from := TrimStartIs(s[1..], drop);
      assert forall i :: 0 < i <= from ==> s[i] == s[1..][i - 1];
      from := from + 1;
    }
  }

  lemma {:induction false} TrimEndIs(s: string, drop: char -> bool) returns (to: nat)
    ensures to <= |s| && TrimEnd(s, drop) == s[..to] && forall i :: to <= i < |s| ==> drop(s[i])
    ensures to > 0 ==> !drop(s[to - 1])
  {
    to := |s|;
    if |s| > 0 && drop(s[|s| - 1]) {
      to := TrimEndIs(s[..|s| - 1], drop);
    }
  }

  /** Trimming takes off all the characters to drop at both ends, and nothing else. */
  lemma TrimIs(s: string, drop: char -> bool) returns (from: nat, to: nat)
    ensures from <= to <= |s| && Trim(s, drop) == s[from..to]
    ensures forall i :: 0 <= i < from || to <= i < |s| ==> drop(s[i])
    ensures from < to ==> !drop(s[from]) && !drop(s[to - 1])
  {
    from := TrimStartIs(s, drop);
    to := TrimEndIs(s[from..], drop);
    to := from + to;
    assert forall i :: from <= i < |s| ==> s[i] == s[from..][i - from];
  }

  /** Lower case is the lower row of the alphabet for a letter of the upper row, and the character itself otherwise. */
  lemma LowerCharIs(c: char)
    ensures var upper, lower := "ABCDEFGHIJKLMNOPQRSTUVWXYZ", "abcdefghijklmnopqrstuvwxyz";
            if exists i :: 0 <= i < 26 && upper[i] == c
            then exists i :: 0 <= i < 26 && upper[i] == c && LowerChar(c) == lower[i]
            else LowerChar(c) == c
  {
    var upper, lower := "ABCDEFGHIJKLMNOPQRSTUVWXYZ", "abcdefghijklmnopqrstuvwxyz";
    assert forall i :: 0 <= i < 26 ==> upper[i] as int == 65 + i && lower[i] as int == 97 + i;
    if 'A' <= c <= 'Z' { assert upper[c as int - 65] == c; }
  }

  lemma {:induction false} SplitParts(s: string)
    ensures AllDotFree(Split(s)) && Join(Split(s)) == s
  {
    if |s| > 0 {
      var rest := Split(s[1..]);
      SplitParts(s[1..]);
      assert s == [s[0]] + s[1..];
      if s[0] == '.' {
        JoinEmptyFirst(rest);
      } else {
        JoinLongerFirst(s[0], rest);
      }
    }
  }

  lemma JoinEmptyFirst(rest: seq<Label>)
    requires |rest| > 0
    ensures Join([""] + rest) == "." + Join(rest)
  {
    var labels, joined := [""] + rest, Join(rest);
    assert labels[0] == "" && labels[1..] == rest;
    EmptyFirst("." + joined);
    Associative("", ".", joined);
  }

  lemma EmptyFirst(s: string)
    ensures "" + s == s
  {}

  lemma Associative(a: string, b: string, c: string)
    ensures (a + b) + c == a + (b + c)
  {}

  lemma JoinLongerFirst(c: char, labels: seq<Label>)
    requires |labels| > 0
    ensures Join([[c] + labels[0]] + labels[1..]) == [c] + Join(labels)
  {
    var first, rest := labels[0], labels[1..];
    var longer := [[c] + first] + rest;
    assert longer[0] == [c] + first && longer[1..] == rest;
    if |rest| > 0 {
      var joined := Join(rest);
      Associative([c], first, ".");
      Associative([c], first + ".", joined);
    }
  }

  lemma {:induction false} SplitDotFree(s: string)
    requires DotFree(s)
    ensures Split(s) == [s]
  {
    if |s| > 0 {
      SplitDotFree(s[1..]);
      assert s == [s[0]] + s[1..];
    }
  }

  lemma {:induction false} SplitAtDot(a: string, b: string)
    requires DotFree(a)
    ensures Split(a + "." + b) == [a] + Split(b)
    decreases |a|
  {
    var s := a + "." + b;
    if |a| == 0 {
      assert s[1..] == b;
    } else {
      assert s[1..] == a[1..] + "." + b;
      SplitAtDot(a[1..], b);
      assert [a[0]] + a[1..] == a;
    }
  }

  lemma {:induction false} SplitJoin(labels: seq<Label>)
    requires |labels| > 0 && AllDotFree(labels)
    ensures Split(Join(labels)) == labels
  {
    if |labels| == 1 {
      SplitDotFree(labels[0]);
    } else {
      SplitJoin(labels[1..]);
      SplitAtDot(labels[0], Join(labels[1..]));
    }
  }

  // ---- matching -----------------------------------------------------------------------------------------------------

  /** A suffix of the host's labels that is itself an exception domain. */
  predicate IsException(list: RuleList, suffix: seq<Label>) { Join(suffix) in list.exceptions }

  /** A suffix of the host's labels that a normal or wildcard rule names. */
  predicate IsRule(list: RuleList, suffix: seq<Label>) {
    Join(suffix) in list.rules || (|suffix| > 1 && Join(suffix[1..]) in list.wildcards)
  }

  /** Length of the longest suffix that is an exception; 0 when none is. */
  function LongestException(list: RuleList, labels: seq<Label>): (n: nat)
    ensures n <= |labels|
  {
    if |labels| == 0 then 0
    else if IsException(list, labels) then |labels|
    else LongestException(list, labels[1..])
  }

  function LongestRule(list: RuleList, labels: seq<Label>): (n: nat)
    ensures n <= |labels|
  {
    if |labels| == 0 then 0
    else if IsRule(list, labels) then |labels|
    else LongestRule(list, labels[1..])
  }

  /** The public suffix length: an exception minus its first label, else the longest rule, else one label. */
  function SuffixLength(list: RuleList, labels: seq<Label>): nat {
    var exception := LongestException(list, labels);
    var rule := LongestRule(list, labels);
    if exception > 0 then exception - 1 else if rule > 0 then rule else 1
  }

  function LastLabels(labels: seq<Label>, n: nat): seq<Label>
    requires n <= |labels|
  {
    labels[|labels| - n..]
  }

  /** The labels of the registrable domain: the public suffix and one more. */
  function RegistrableLabels(list: RuleList, labels: seq<Label>): Option<seq<Label>> {
    var k := SuffixLength(list, labels);
    if |labels| < 2 || |labels| <= k then None else Some(LastLabels(labels, k + 1))
  }

  /** The registrable domain of a host; `isIp` recognizes IP literals. */
  function RegistrableDomain(list: RuleList, isIp: string -> bool, host: string): Option<string> {
    var h := Normalized(host);
    if h == "" || isIp(h) then None
    else
      var labels := RegistrableLabels(list, Split(h));
      if labels.None? then None else Some(Join(labels.value))
  }

  /** The matcher as the program runs it: two loops over suffixes, longest first, each left at its first hit. */
  method FindRegistrableDomain(list: RuleList, isIp: string -> bool, host: string) returns (domain: Option<string>)
    ensures domain == RegistrableDomain(list, isIp, host)
  {
    var h := Normalized(host);
    if h == "" || isIp(h) {
      return None;
    }
    var labels := Split(h);
    var count := |labels|;
    if count < 2 {
      return None;
    }
    var suffixLabels: Option<nat> := None;
    var start := 0;
    assert labels[0..] == labels;
    while start < count
      invariant start <= count && suffixLabels.None?
      invariant LongestException(list, labels) == LongestException(list, labels[start..])
    {
      if Join(labels[start..]) in list.exceptions {
        suffixLabels := Some(count - (start + 1));
        break;
      }
      assert labels[start..][1..] == labels[start + 1..];
      start := start + 1;
    }
    if suffixLabels.None? {
      start := 0;
      while start < count
        invariant start <= count && suffixLabels.None?
        invariant LongestRule(list, labels) == LongestRule(list, labels[start..])
      {
        assert labels[start..][1..] == labels[start + 1..];
        var wildcardHit := start + 1 < count && Join(labels[start + 1..]) in list.wildcards;
        if Join(labels[start..]) in list.rules || wildcardHit {
          suffixLabels := Some(count - start);
          break;
        }
        start := start + 1;
      }
    }
    var suffix := if suffixLabels.Some? then suffixLabels.value else 1;
    assert suffix == SuffixLength(list, labels);
    if count <= suffix {
      return None;
    }
    domain := Some(Join(labels[count - suffix - 1..]));
  }

  // ---- the published algorithm --------------------------------------------------------------------------------------

  /** A rule as the list's format defines it: labels from left to right, where `*` stands for any one label. */
  datatype Pattern = Star | Exact(text: Label)

  datatype Rule = Rule(pattern: seq<Pattern>, isException: bool)

  /** A host matches a rule when it has at least the rule's labels and, from the right, each pair agrees. */
  predicate Matches(rule: Rule, labels: seq<Label>) {
    && |rule.pattern| <= |labels|
    && forall i :: 0 <= i < |rule.pattern| ==>
                     rule.pattern[i].Star? || rule.pattern[i].text == labels[|labels| - |rule.pattern| + i]
  }

  function ExactPattern(labels: seq<Label>): seq<Pattern> {
    seq(|labels|, i requires 0 <= i < |labels| => Exact(labels[i]))
  }

  /** The rules a rule list stands for. */
  ghost predicate InList(list: RuleList, rule: Rule) {
    exists labels :: |labels| > 0 && AllDotFree(labels) && IsRuleFor(list, rule, labels)
  }

  ghost predicate IsRuleFor(list: RuleList, rule: Rule, labels: seq<Label>) {
    || (rule == Rule(ExactPattern(labels), true) && Join(labels) in list.exceptions)
    || (rule == Rule(ExactPattern(labels), false) && Join(labels) in list.rules)
    || (rule == Rule([Star] + ExactPattern(labels), false) && Join(labels) in list.wildcards)
  }

  ghost predicate Applies(list: RuleList, rule: Rule, labels: seq<Label>) { InList(list, rule) && Matches(rule, labels) }

  /** The prevailing rule: an exception over any other, then the most labels. */
  ghost predicate Prevails(list: RuleList, rule: Rule, labels: seq<Label>) {
    && Applies(list, rule, labels)
    && forall other :: Applies(list, other, labels) ==>
                         (other.isException ==> rule.isException && |other.pattern| <= |rule.pattern|)
                         && (!rule.isException ==> |other.pattern| <= |rule.pattern|)
  }

  lemma ExactMatches(pattern: seq<Label>, labels: seq<Label>, isException: bool)
    ensures Matches(Rule(ExactPattern(pattern), isException), labels)
            <==> |pattern| <= |labels| && LastLabels(labels, |pattern|) == pattern
  {
    var rule := Rule(ExactPattern(pattern), isException);
    if Matches(rule, labels) {
      forall i | 0 <= i < |pattern| ensures LastLabels(labels, |pattern|)[i] == pattern[i] {
        assert rule.pattern[i] == Exact(pattern[i]);
      }
    }
    if |pattern| <= |labels| && LastLabels(labels, |pattern|) == pattern {
      forall i | 0 <= i < |pattern| ensures rule.pattern[i].text == labels[|labels| - |pattern| + i] {
        assert LastLabels(labels, |pattern|)[i] == pattern[i];
      }
    }
  }

  lemma StarMatchesOnly(base: seq<Label>, labels: seq<Label>)
    requires Matches(Rule([Star] + ExactPattern(base), false), labels)
    ensures |base| < |labels| && LastLabels(labels, |base|) == base
  {
    var star := Rule([Star] + ExactPattern(base), false);
    forall i | 0 <= i < |base| ensures LastLabels(labels, |base|)[i] == base[i] {
      assert star.pattern[i + 1] == Exact(base[i]);
    }
  }

  lemma StarMatches(base: seq<Label>, labels: seq<Label>)
    ensures Matches(Rule([Star] + ExactPattern(base), false), labels)
            <==> |base| < |labels| && LastLabels(labels, |base|) == base
  {
    var star := Rule([Star] + ExactPattern(base), false);
    if Matches(star, labels) {
      StarMatchesOnly(base, labels);
    }
    if |base| < |labels| && LastLabels(labels, |base|) == base {
      forall i | 0 <= i < |star.pattern|
        ensures star.pattern[i].Star? || star.pattern[i].text == labels[|labels| - |star.pattern| + i]
      {
        if i > 0 {
          assert star.pattern[i] == Exact(base[i - 1]);
          assert LastLabels(labels, |base|)[i - 1] == base[i - 1];
        }
      }
    }
  }

  /** Some rule of `n` labels applies to a host exactly when the host's last `n` labels are a hit in the rule sets. */
  lemma AppliesIffHit(list: RuleList, labels: seq<Label>, n: nat, isException: bool)
    requires AllDotFree(labels) && 0 < n <= |labels|
    ensures (exists rule :: Applies(list, rule, labels) && |rule.pattern| == n && rule.isException == isException)
            <==> if isException then IsException(list, LastLabels(labels, n)) else IsRule(list, LastLabels(labels, n))
  {
    var suffix := LastLabels(labels, n);
    if isException && IsException(list, suffix) {
      HitApplies(list, labels, Rule(ExactPattern(suffix), true), suffix);
    }
    if !isException && Join(suffix) in list.rules {
      HitApplies(list, labels, Rule(ExactPattern(suffix), false), suffix);
    } else if !isException && IsRule(list, suffix) {
      assert suffix[1..] == LastLabels(labels, n - 1);
      StarMatches(suffix[1..], labels);
      assert IsRuleFor(list, Rule([Star] + ExactPattern(suffix[1..]), false), suffix[1..]);
      assert Applies(list, Rule([Star] + ExactPattern(suffix[1..]), false), labels);
    }
    forall rule | Applies(list, rule, labels) && |rule.pattern| == n && rule.isException == isException
      ensures if isException then IsException(list, suffix) else IsRule(list, suffix)
    {
      AppliedHits(list, labels, rule);
    }
  }

  lemma HitApplies(list: RuleList, labels: seq<Label>, rule: Rule, suffix: seq<Label>)
    requires AllDotFree(labels) && 0 < |suffix| <= |labels| && suffix == LastLabels(labels, |suffix|)
    requires rule == Rule(ExactPattern(suffix), rule.isException) && IsRuleFor(list, rule, suffix)
    ensures Applies(list, rule, labels) && |rule.pattern| == |suffix|
  {}

  lemma AppliedHits(list: RuleList, labels: seq<Label>, rule: Rule)
    requires Applies(list, rule, labels)
    ensures 0 < |rule.pattern| <= |labels|
    ensures var suffix := LastLabels(labels, |rule.pattern|);
            if rule.isException then IsException(list, suffix) else IsRule(list, suffix)
  {
    var own :| |own| > 0 && AllDotFree(own) && IsRuleFor(list, rule, own);
    ExactMatches(own, labels, rule.isException);
    StarMatches(own, labels);
    if |rule.pattern| == |own| + 1 {
      assert LastLabels(labels, |rule.pattern|)[1..] == LastLabels(labels, |own|);
    }
  }

  lemma {:induction false} LongestExceptionIs(list: RuleList, labels: seq<Label>)
    ensures var n := LongestException(list, labels);
            && (n > 0 ==> IsException(list, LastLabels(labels, n)))
            && forall m :: n < m <= |labels| ==> !IsException(list, LastLabels(labels, m))
  {
    if |labels| > 0 {
      var rest := labels[1..];
      LongestExceptionIs(list, rest);
      assert LastLabels(labels, |labels|) == labels;
      assert forall m :: 0 <= m <= |rest| ==> LastLabels(labels, m) == LastLabels(rest, m);
    }
  }

  lemma {:induction false} LongestRuleIs(list: RuleList, labels: seq<Label>)
    ensures var n := LongestRule(list, labels);
            && (n > 0 ==> IsRule(list, LastLabels(labels, n)))
            && forall m :: n < m <= |labels| ==> !IsRule(list, LastLabels(labels, m))
  {
    if |labels| > 0 {
      var rest := labels[1..];
      LongestRuleIs(list, rest);
      assert LastLabels(labels, |labels|) == labels;
      assert forall m :: 0 <= m <= |rest| ==> LastLabels(labels, m) == LastLabels(rest, m);
    }
  }

  /** The two loops compute the published algorithm: the prevailing rule decides the public suffix, an exception
      without its leftmost label, any other as it stands; a host no rule matches has a one-label suffix. */
  lemma SuffixIsPrevailing(list: RuleList, labels: seq<Label>)
    requires AllDotFree(labels)
    ensures forall rule :: Prevails(list, rule, labels) ==>
                             SuffixLength(list, labels) == if rule.isException then |rule.pattern| - 1 else |rule.pattern|
    ensures (forall rule :: !Applies(list, rule, labels)) ==> SuffixLength(list, labels) == 1
    ensures (exists rule :: Applies(list, rule, labels)) ==> exists rule :: Prevails(list, rule, labels)
  {
    var e, r := LongestException(list, labels), LongestRule(list, labels);
    LongestExceptionIs(list, labels);
    LongestRuleIs(list, labels);
    forall rule | Applies(list, rule, labels)
      ensures |rule.pattern| <= if rule.isException then e else r
    {
      AppliedHits(list, labels, rule);
    }
    if e > 0 {
      AppliesIffHit(list, labels, e, true);
      var rule :| Applies(list, rule, labels) && |rule.pattern| == e && rule.isException;
      assert Prevails(list, rule, labels);
    } else if r > 0 {
      AppliesIffHit(list, labels, r, false);
      var rule :| Applies(list, rule, labels) && |rule.pattern| == r && !rule.isException;
      assert Prevails(list, rule, labels);
    }
  }
}
