/** The e-mail syntax check of `CognitoService#validate_email!`: the anchored,
    case-insensitive pattern "local@label(.label)*.tld", where the local part is
    word characters, '+', '-' and '.', a label is letters, digits and '-', and
    the top-level domain is letters. `Accepts` recognises it by scanning
    characters; `Pattern` states the pattern's structure directly; the two are
    proved to agree on every string. */
module EmailFormat {

  predicate AsciiLetter(c: char) {
    ('a' <= c <= 'z') || ('A' <= c <= 'Z')
  }

  predicate AsciiDigit(c: char) {
    '0' <= c <= '9'
  }

  /** `[\w+\-.]`: Ruby's `\w` is ASCII letters, digits and '_'. */
  predicate LocalChar(c: char) {
    AsciiLetter(c) || AsciiDigit(c) || c == '_' || c == '+' || c == '-' || c == '.'
  }

  /** `[a-z\d\-]` under the case-insensitive flag. */
  predicate LabelChar(c: char) {
    AsciiLetter(c) || AsciiDigit(c) || c == '-'
  }

  predicate IsLocal(s: string) {
    |s| > 0 && forall i | 0 <= i < |s| :: LocalChar(s[i])
  }

  predicate IsLabel(s: string) {
    |s| > 0 && forall i | 0 <= i < |s| :: LabelChar(s[i])
  }

  predicate IsTld(s: string) {
    |s| > 0 && forall i | 0 <= i < |s| :: AsciiLetter(s[i])
  }

  /** Labels joined by dots. */
  function JoinDot(labels: seq<string>): string
    decreases |labels|
  {
    if |labels| == 0 then ""
    else if |labels| == 1 then labels[0]
    else labels[0] + "." + JoinDot(labels[1..])
  }

  /** The text the pattern's pieces spell. */
  function Assemble(local: string, labels: seq<string>, tld: string): string {
    local + "@" + JoinDot(labels) + "." + tld
  }

  /** The pattern's pieces: a local part, one or more labels, a top-level domain. */
  predicate Pieces(local: string, labels: seq<string>, tld: string) {
    && IsLocal(local)
    && |labels| >= 1
    && (forall i | 0 <= i < |labels| :: IsLabel(labels[i]))
    && IsTld(tld)
  }

  /** The pattern, clause by clause: a local part, '@', one or more labels
      joined by dots, a dot, and a top-level domain. */
  ghost predicate Pattern(s: string) {
    exists local: string, labels: seq<string>, tld: string ::
      Pieces(local, labels, tld) && s == Assemble(local, labels, tld)
  }

  /** The length of the longest prefix of `s` whose characters satisfy the
      local-part class. */
  function LocalRun(s: string): (n: nat)
    ensures n <= |s|
    ensures forall i | 0 <= i < n :: LocalChar(s[i])
    ensures n < |s| ==> !LocalChar(s[n])
  {
    if |s| == 0 || !LocalChar(s[0]) then 0 else 1 + LocalRun(s[1..])
  }

  /** The length of the longest prefix of `s` made of label characters. */
  function LabelRun(s: string): (n: nat)
    ensures n <= |s|
    ensures forall i | 0 <= i < n :: LabelChar(s[i])
    ensures n < |s| ==> !LabelChar(s[n])
  {
    if |s| == 0 || !LabelChar(s[0]) then 0 else 1 + LabelRun(s[1..])
  }

  predicate AllLetters(s: string) {
    forall i | 0 <= i < |s| :: AsciiLetter(s[i])
  }

  /** The rest of a domain after its first label and dot: labels separated by
      dots, the last of them letters only. */
  function Tail(s: string): bool
    decreases |s|
  {
    var n := LabelRun(s);
    n > 0 && (if n == |s| then AllLetters(s) else s[n] == '.' && Tail(s[n + 1..]))
  }

  /** A domain: a first label, a dot, and a tail. */
  function Domain(s: string): bool {
    var n := LabelRun(s);
    0 < n < |s| && s[n] == '.' && Tail(s[n + 1..])
  }

  /** The recogniser: a maximal run of local-part characters, then '@', then a domain. */
  function Accepts(s: string): bool {
    var n := LocalRun(s);
    0 < n < |s| && s[n] == '@' && Domain(s[n + 1..])
  }

  // ---- From the recogniser to the pattern -------------------------------

  /** The labels a tail is made of. */
  function TailLabels(s: string): (labels: seq<string>)
    requires Tail(s)
    ensures |labels| >= 1
    ensures forall i | 0 <= i < |labels| :: IsLabel(labels[i])
    ensures IsTld(labels[|labels| - 1])
    ensures JoinDot(labels) == s
    decreases |s|
  {
    var n := LabelRun(s);
    if n == |s| then
      assert s[..n] == s;
      [s]
    else
      var rest := TailLabels(s[n + 1..]);
      var labels := [s[..n]] + rest;
      assert labels[1..] == rest;
      assert s == s[..n] + "." + s[n + 1..];
      labels
  }

  lemma {:induction false} JoinDotSnoc(labels: seq<string>, last: string)
    requires |labels| >= 1
    ensures JoinDot(labels + [last]) == JoinDot(labels) + "." + last
    decreases |labels|
  {
    if |labels| == 1 {
      assert (labels + [last])[1..] == [last];
    } else {
      assert (labels + [last])[1..] == labels[1..] + [last];
      JoinDotSnoc(labels[1..], last);
    }
  }

  /** Cutting a string around one of its characters. */
  lemma CutAt(s: string, n: nat)
    requires n < |s|
    ensures s == s[..n] + [s[n]] + s[n + 1..]
  {
  }

  lemma Assoc(a: string, b: string, c: string)
    ensures a + b + c == a + (b + c)
  {
  }

  lemma Regroup(local: string, join: string, tld: string)
    ensures local + "@" + (join + "." + tld) == local + "@" + join + "." + tld
  {
  }

  /** The labels a domain is made of. */
  function DomainLabels(d: string): (all: seq<string>)
    requires Domain(d)
    ensures |all| >= 2
    ensures forall i | 0 <= i < |all| :: IsLabel(all[i])
    ensures IsTld(all[|all| - 1])
    ensures JoinDot(all) == d
  {
    var m := LabelRun(d);
    var rest := TailLabels(d[m + 1..]);
    var all := [d[..m]] + rest;
    assert all[1..] == rest;
    CutAt(d, m);
    all
  }

  /** A string cut at its '@', with the domain cut into labels and a last one. */
  lemma AssembleOf(s: string, n: nat, labels: seq<string>, tld: string)
    requires n < |s| && s[n] == '@'
    requires |labels| >= 1
    requires JoinDot(labels + [tld]) == s[n + 1..]
    ensures s == Assemble(s[..n], labels, tld)
  {
    JoinDotSnoc(labels, tld);
    CutAt(s, n);
    Regroup(s[..n], JoinDot(labels), tld);
  }

  /** A non-empty local-part run is a local part. */
  lemma LocalRunIsLocal(s: string)
    requires LocalRun(s) > 0
    ensures IsLocal(s[..LocalRun(s)])
  {
    var n := LocalRun(s);
    forall i | 0 <= i < n ensures LocalChar(s[..n][i]) {
      assert s[..n][i] == s[i];
    }
  }

  lemma AcceptsMatchesPattern(s: string)
    requires Accepts(s)
    ensures Pattern(s)
  {
    LocalRunIsLocal(s);
    PatternOfDomain(s, LocalRun(s));
  }

  /** A local part, '@' and a domain match the pattern. */
  lemma PatternOfDomain(s: string, n: nat)
    requires n < |s| && s[n] == '@' && IsLocal(s[..n])
    requires Domain(s[n + 1..])
    ensures Pattern(s)
  {
    PatternOfParts(s, n, DomainLabels(s[n + 1..]));
  }

  /** A local part, '@', and a domain cut into labels match the pattern. */
  lemma PatternOfParts(s: string, n: nat, all: seq<string>)
    requires n < |s| && s[n] == '@' && IsLocal(s[..n])
    requires |all| >= 2
    requires forall i | 0 <= i < |all| :: IsLabel(all[i])
    requires IsTld(all[|all| - 1])
    requires JoinDot(all) == s[n + 1..]
    ensures Pattern(s)
  {
    var labels := all[..|all| - 1];
    var tld := all[|all| - 1];
    assert all == labels + [tld];
    AssembleOf(s, n, labels, tld);
    forall i | 0 <= i < |labels| ensures IsLabel(labels[i]) {
      assert labels[i] == all[i];
    }
    assert Pieces(s[..n], labels, tld);
  }

  // ---- From the pattern to the recogniser -------------------------------

  /** A run length is determined by where the class first fails. */
  lemma {:induction false} LabelRunIs(x: string, k: nat)
    requires k <= |x|
    requires forall i | 0 <= i < k :: LabelChar(x[i])
    requires k < |x| ==> !LabelChar(x[k])
    ensures LabelRun(x) == k
    decreases k
  {
    if k > 0 {
      LabelRunIs(x[1..], k - 1);
    }
  }

  lemma {:induction false} LocalRunIs(x: string, k: nat)
    requires k <= |x|
    requires forall i | 0 <= i < k :: LocalChar(x[i])
    requires k < |x| ==> !LocalChar(x[k])
    ensures LocalRun(x) == k
    decreases k
  {
    if k > 0 {
      LocalRunIs(x[1..], k - 1);
    }
  }

  /** The first label of `l + rest` ends where `rest` starts with a dot. */
  lemma LabelRunOfLabel(l: string, rest: string)
    requires IsLabel(l)
    requires |rest| > 0 && rest[0] == '.'
    ensures LabelRun(l + rest) == |l|
    ensures (l + rest)[|l| + 1..] == rest[1..]
  {
    var x := l + rest;
    assert forall i | 0 <= i < |l| :: x[i] == l[i];
    assert x[|l|] == '.';
    LabelRunIs(x, |l|);
  }

  lemma {:induction false} TailOfLabels(labels: seq<string>)
    requires |labels| >= 1
    requires forall i | 0 <= i < |labels| :: IsLabel(labels[i])
    requires AllLetters(labels[|labels| - 1])
    ensures Tail(JoinDot(labels))
    decreases |labels|
  {
    var x := JoinDot(labels);
    if |labels| == 1 {
      LabelRunIs(x, |x|);
    } else {
      var rest := "." + JoinDot(labels[1..]);
      assert x == labels[0] + rest;
      LabelRunOfLabel(labels[0], rest);
      TailOfLabels(labels[1..]);
    }
  }

  /** A label, a dot and a tail make a domain. */
  lemma DomainOf(l: string, t: string)
    requires IsLabel(l) && Tail(t)
    ensures Domain(l + ("." + t))
  {
    var rest := "." + t;
    LabelRunOfLabel(l, rest);
    assert rest[1..] == t;
    assert (l + rest)[|l|] == '.';
  }

  lemma DomainOfLabels(all: seq<string>)
    requires |all| >= 2
    requires forall i | 0 <= i < |all| :: IsLabel(all[i])
    requires AllLetters(all[|all| - 1])
    ensures Domain(JoinDot(all))
  {
    DropFirstLabel(all);
    TailOfLabels(all[1..]);
    JoinDotCons(all);
    DomainOf(all[0], JoinDot(all[1..]));
  }

  /** Dropping the first of several labels keeps them labels, and the last. */
  lemma DropFirstLabel(all: seq<string>)
    requires |all| >= 2
    requires forall i | 0 <= i < |all| :: IsLabel(all[i])
    requires AllLetters(all[|all| - 1])
    ensures forall i | 0 <= i < |all[1..]| :: IsLabel(all[1..][i])
    ensures AllLetters(all[1..][|all[1..]| - 1])
  {
    var rest := all[1..];
    forall i | 0 <= i < |rest| ensures IsLabel(rest[i]) {
      assert rest[i] == all[i + 1];
    }
    assert rest[|rest| - 1] == all[|all| - 1];
  }

  lemma JoinDotCons(all: seq<string>)
    requires |all| >= 2
    ensures JoinDot(all) == all[0] + ("." + JoinDot(all[1..]))
  {
    Assoc(all[0], ".", JoinDot(all[1..]));
  }

  lemma PatternAccepted(local: string, labels: seq<string>, tld: string)
    requires IsLocal(local)
    requires |labels| >= 1
    requires forall i | 0 <= i < |labels| :: IsLabel(labels[i])
    requires IsTld(tld)
    ensures Accepts(Assemble(local, labels, tld))
  {
    var all := labels + [tld];
    JoinDotSnoc(labels, tld);
    var d := JoinDot(all);
    DomainOfLabels(all);
    var s := local + "@" + d;
    Regroup(local, JoinDot(labels), tld);
    assert forall i | 0 <= i < |local| :: s[i] == local[i];
    assert s[|local|] == '@';
    LocalRunIs(s, |local|);
    assert s[|local| + 1..] == d;
  }

  /** The recogniser accepts exactly the strings of the pattern. */
  lemma AcceptsIffPattern(s: string)
    ensures Accepts(s) <==> Pattern(s)
  {
    if Accepts(s) {
      AcceptsMatchesPattern(s);
    }
    if Pattern(s) {
      var local: string, labels: seq<string>, tld: string :|
        Pieces(local, labels, tld) && s == Assemble(local, labels, tld);
      PatternAccepted(local, labels, tld);
    }
  }
}
