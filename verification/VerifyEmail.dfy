/** The e-mail scanner of the registration request, against a grammar of local part and domain labels. */
module VerifyEmail {
  import opened Wrappers

  const LOCAL_MAX := 64
  const DOMAIN_MAX := 254

  /** Characters the scanner takes; '@', '.' and '-' are among them and are told apart by position. */
  predicate Allowed(c: char) {
    || ']' <= c <= '~' || '?' <= c <= '[' || c == '!' || c == '='
    || '#' <= c <= '\'' || '*' <= c <= '+' || '-' <= c <= '9'
  }

  /** These are the printable characters but for the space and nine others. */
  lemma AllowedIs(c: char)
    ensures Allowed(c) <==> '!' <= c <= '~' && c !in "\"(),:;<>\\"
  {
    var others := "\"(),:;<>\\";
    assert others == ['"', '(', ')', ',', ':', ';', '<', '>', '\\'];
  }

  predicate Letter(c: char) {
    'a' <= c <= 'z' || 'A' <= c <= 'Z'
  }

  /** `c` does not occur twice in a row. */
  predicate NeverDoubled(s: string, c: char) {
    forall k :: 0 < k < |s| ==> !(s[k] == c && s[k - 1] == c)
  }

  ghost predicate IsLocal(s: string) {
    && 1 <= |s| <= LOCAL_MAX
    && (forall k :: 0 <= k < |s| ==> Allowed(s[k]) && s[k] != '@')
    && s[0] != '.' && s[|s| - 1] != '.' && NeverDoubled(s, '.')
  }

  /** Characters of a label; a hyphen neither leads nor is doubled. */
  predicate LabelSoFar(l: string) {
    && (forall k :: 0 <= k < |l| ==> Allowed(l[k]) && l[k] != '@' && l[k] != '.')
    && (l != "" ==> l[0] != '-') && NeverDoubled(l, '-')
  }

  predicate IsLabel(l: string) {
    l != "" && LabelSoFar(l) && l[|l| - 1] != '-'
  }

  predicate AllLetters(l: string) {
    forall k :: 0 <= k < |l| ==> Letter(l[k])
  }

  /** Longest label `k` of `n`: the scanner counts the dot before a label and the dot after it. */
  function LabelMax(k: nat, n: nat): nat {
    64 - (if k > 0 then 1 else 0) - (if k + 1 < n then 1 else 0)
  }

  function Join(labels: seq<string>): string
    requires labels != []
  {
    if |labels| == 1 then labels[0] else Join(labels[..|labels| - 1]) + "." + labels[|labels| - 1]
  }

  ghost predicate AreLabels(labels: seq<string>) {
    && labels != []
    && (forall k :: 0 <= k < |labels| ==> IsLabel(labels[k]) && |labels[k]| <= LabelMax(k, |labels|))
    && AllLetters(labels[|labels| - 1])
  }

  ghost predicate IsDomain(d: string) {
    |d| <= DOMAIN_MAX && exists labels :: AreLabels(labels) && d == Join(labels)
  }

  /** The grammar: a local part, an at sign, and labels joined by dots. */
  ghost predicate IsEmail(e: string) {
    exists local, domain :: IsLocal(local) && IsDomain(domain) && e == local + "@" + domain
  }

  function Last(labels: seq<string>): string
    requires labels != []
  {
    labels[|labels| - 1]
  }

  /** A dot opens a label; any other character extends the last one. */
  function Push(labels: seq<string>, c: char): (more: seq<string>)
    requires labels != []
    ensures more != []
  {
    if c == '.' then labels + [""] else labels[..|labels| - 1] + [Last(labels) + [c]]
  }

  /** Cuts a string at its dots. */
  function Split(s: string): (labels: seq<string>)
    ensures labels != []
  {
    if s == "" then [""]
    else
      Push(Split(s[..|s| - 1]), s[|s| - 1])
  }

  lemma JoinPush(labels: seq<string>, c: char)
    requires labels != []
    ensures Join(Push(labels, c)) == Join(labels) + [c]
  {
    var more := Push(labels, c);
    if c == '.' {
      assert more[..|labels|] == labels;
    } else {
      assert more[..|labels| - 1] == labels[..|labels| - 1];
      if |labels| > 1 {
        var front := Join(labels[..|labels| - 1]) + ".";
        assert front + (Last(labels) + [c]) == front + Last(labels) + [c];
      }
    }
  }

  ghost predicate NoDots(labels: seq<string>) {
    forall k :: 0 <= k < |labels| ==> '.' !in labels[k]
  }

  lemma NoDotsPush(labels: seq<string>, c: char)
    requires labels != [] && NoDots(labels)
    ensures NoDots(Push(labels, c))
  {
  }

  lemma {:induction false} JoinSplit(s: string)
    ensures Join(Split(s)) == s && NoDots(Split(s))
  {
    if s != "" {
      var init, c := s[..|s| - 1], s[|s| - 1];
      JoinSplit(init);
      JoinPush(Split(init), c);
      NoDotsPush(Split(init), c);
      assert s == init + [c];
    }
  }

  lemma {:induction false} SplitNoDot(s: string)
    requires '.' !in s
    ensures Split(s) == [s]
  {
    if s != "" {
      assert '.' !in s[..|s| - 1];
      SplitNoDot(s[..|s| - 1]);
      assert s[..|s| - 1] + [s[|s| - 1]] == s;
    }
  }

  lemma {:induction false} SplitAfterDot(s: string, l: string)
    requires '.' !in l
    ensures Split(s + "." + l) == Split(s) + [l]
  {
    var all := s + "." + l;
    if l == "" {
      assert all[..|all| - 1] == s;
    } else {
      var init := l[..|l| - 1];
      assert '.' !in init;
      assert all[..|all| - 1] == s + "." + init;
      SplitAfterDot(s, init);
      assert l == init + [l[|l| - 1]];
    }
  }

  lemma {:induction false} SplitJoin(labels: seq<string>)
    requires labels != [] && NoDots(labels)
    ensures Split(Join(labels)) == labels
  {
    if |labels| == 1 {
      SplitNoDot(labels[0]);
    } else {
      SplitJoin(labels[..|labels| - 1]);
      SplitAfterDot(Join(labels[..|labels| - 1]), labels[|labels| - 1]);
    }
  }

  lemma DomainIffSplit(d: string)
    ensures IsDomain(d) <==> |d| <= DOMAIN_MAX && AreLabels(Split(d))
  {
    JoinSplit(d);
    if IsDomain(d) {
      var labels :| AreLabels(labels) && d == Join(labels);
      SplitJoin(labels);
    }
  }

  /** What the scanner has established after `n` characters of the domain cut into `labels`. */
  ghost predicate Scanned(labels: seq<string>, n: nat)
    requires labels != []
  {
    var last := |labels| - 1;
    && n <= DOMAIN_MAX
    && (forall k :: 0 <= k < last ==> IsLabel(labels[k]) && |labels[k]| <= LabelMax(k, |labels|))
    && LabelSoFar(labels[last]) && |labels[last]| <= LabelMax(last, |labels|)
  }

  /** Characters of the last label, with the dot before it. */
  function LabelLength(labels: seq<string>): nat
    requires labels != []
  {
    |Last(labels)| + if |labels| == 1 then 0 else 1
  }

  lemma LabelSoFarAppend(l: string, c: char)
    ensures LabelSoFar(l + [c]) <==>
            LabelSoFar(l) && Allowed(c) && c != '@' && c != '.' && (c == '-' ==> l != "" && l[|l| - 1] != '-')
  {
    var m := l + [c];
    assert m[|l|] == c;
    if LabelSoFar(m) {
      forall k | 0 <= k < |l| ensures l[k] == m[k] {}
      assert l != "" ==> l[0] == m[0];
      assert NeverDoubled(l, '-') by {
        forall k | 0 < k < |l| ensures !(l[k] == '-' && l[k - 1] == '-') {
          assert m[k] == l[k] && m[k - 1] == l[k - 1];
        }
      }
    }
  }

  /** The tests of one round of the scanner are exactly what keeps `Scanned`. */
  lemma PushScanned(labels: seq<string>, n: nat, c: char)
    requires labels != [] && Scanned(labels, n)
    ensures Scanned(Push(labels, c), n + 1) <==>
            && n < DOMAIN_MAX && LabelLength(labels) <= 63 && c != '@'
            && (if c == '.' then IsLabel(Last(labels))
                else Allowed(c) && (c == '-' ==> Last(labels) != "" && Last(labels)[|Last(labels)| - 1] != '-'))
  {
    var last, more := |labels| - 1, Push(labels, c);
    LabelSoFarAppend(Last(labels), c);
    if c == '.' {
      assert forall k :: 0 <= k <= last ==> more[k] == labels[k];
      assert more[last + 1] == "" && LabelSoFar("");
    } else {
      assert forall k :: 0 <= k < last ==> more[k] == labels[k];
      assert more[last] == Last(labels) + [c];
    }
  }

  lemma PushScannedBack(labels: seq<string>, n: nat, c: char)
    requires labels != [] && Scanned(Push(labels, c), n + 1)
    ensures Scanned(labels, n)
  {
    var last, more := |labels| - 1, Push(labels, c);
    LabelSoFarAppend(Last(labels), c);
    if c == '.' {
      assert forall k :: 0 <= k <= last ==> more[k] == labels[k];
    } else {
      assert forall k :: 0 <= k < last ==> more[k] == labels[k];
      assert more[last] == Last(labels) + [c];
    }
  }

  /** Every beginning of a domain passes the scanner so far. */
  lemma {:induction false} DomainScans(d: string, n: nat)
    requires |d| <= DOMAIN_MAX && AreLabels(Split(d)) && n <= |d|
    ensures Scanned(Split(d[..n]), n)
    decreases |d| - n
  {
    if n == |d| {
      assert d[..n] == d;
    } else {
      DomainScans(d, n + 1);
      assert d[..n + 1][..n] == d[..n] && d[..n + 1][n] == d[n];
      PushScannedBack(Split(d[..n]), n, d[n]);
    }
  }

  lemma ScannedAreLabels(labels: seq<string>, n: nat)
    requires labels != [] && Scanned(labels, n)
    ensures AreLabels(labels) <==> IsLabel(Last(labels)) && AllLetters(Last(labels))
  {
    assert labels[|labels| - 1] == Last(labels);
  }

  lemma SplitStep(d: string, n: nat)
    requires n < |d|
    ensures Split(d[..n + 1]) == Push(Split(d[..n]), d[n])
  {
    assert d[..n + 1][..n] == d[..n];
  }

  lemma LocalAt(e: string, local: string, domain: string)
    requires e == local + "@" + domain
    ensures |local| < |e| && e[|local|] == '@' && e[..|local|] == local && e[|local| + 1..] == domain
    ensures forall k :: 0 <= k < |local| ==> e[k] == local[k]
  {
  }

  /** The at sign of an e-mail address is the first one: local parts contain none. */
  lemma FirstAt(e: string, at: nat, local: string, domain: string)
    requires at < |e| && e[at] == '@' && forall k :: 0 <= k < at ==> e[k] != '@'
    requires IsLocal(local) && e == local + "@" + domain
    ensures local == e[..at] && domain == e[at + 1..]
  {
    LocalAt(e, local, domain);
  }

  lemma EmailIffAt(e: string, at: nat)
    requires at < |e| && e[at] == '@' && forall k :: 0 <= k < at ==> e[k] != '@'
    ensures IsEmail(e) <==> IsLocal(e[..at]) && IsDomain(e[at + 1..])
  {
    if IsEmail(e) {
      var local, domain :| IsLocal(local) && IsDomain(domain) && e == local + "@" + domain;
      FirstAt(e, at, local, domain);
    }
    if IsLocal(e[..at]) && IsDomain(e[at + 1..]) {
      assert e == e[..at] + "@" + e[at + 1..];
    }
  }

  lemma WithinLocal(e: string, i: nat, local: string, domain: string)
    requires i < |e| && e[i] != '@' && forall k :: 0 <= k < i ==> e[k] != '@'
    requires IsLocal(local) && e == local + "@" + domain
    ensures i < LOCAL_MAX && Allowed(e[i]) && (e[i] == '.' ==> i > 0 && e[i - 1] != '.')
  {
    LocalAt(e, local, domain);
    assert i < |local|;
  }

  /** The part already scanned is no beginning of an address. */
  lemma NotEmail(e: string, i: nat)
    requires i < |e| && e[i] != '@' && forall k :: 0 <= k < i ==> e[k] != '@'
    requires i >= LOCAL_MAX || !Allowed(e[i]) || (e[i] == '.' && (i == 0 || e[i - 1] == '.'))
    ensures !IsEmail(e)
  {
    if IsEmail(e) {
      var local, domain :| IsLocal(local) && IsDomain(domain) && e == local + "@" + domain;
      WithinLocal(e, i, local, domain);
    }
  }

  lemma NoAtNoEmail(e: string)
    requires forall k :: 0 <= k < |e| ==> e[k] != '@'
    ensures !IsEmail(e)
  {
    if IsEmail(e) {
      var local, domain :| IsLocal(local) && IsDomain(domain) && e == local + "@" + domain;
      LocalAt(e, local, domain);
    }
  }

  /** First phase: up to the at sign. `None` rejects; otherwise the index the second phase starts after. */
  method ScanLocal(email: string) returns (at: Option<nat>)
    ensures at.None? ==> !IsEmail(email)
    ensures at.Some? ==> at.value <= |email| && forall k :: 0 <= k < at.value ==> email[k] != '@'
    ensures at.Some? && at.value < |email| ==> email[at.value] == '@' && IsLocal(email[..at.value])
  {
    var localValid := false;
    var lastChar := '.';
    var i := 0;
    while i < |email|
      invariant 0 <= i <= |email| && i <= LOCAL_MAX
      invariant forall k :: 0 <= k < i ==> Allowed(email[k]) && email[k] != '@'
      invariant i > 0 ==> email[0] != '.'
      invariant NeverDoubled(email[..i], '.')
      invariant localValid <==> i > 0
      invariant lastChar == if i == 0 then '.' else email[i - 1]
    {
      var c := email[i];
      if c == '@' {
        if lastChar == '.' {
          EmailIffAt(email, i);
          return None;
        }
        break;
      } else if (c == '.' && lastChar == '.') || i >= LOCAL_MAX {
        NotEmail(email, i);
        return None;
      } else if Allowed(c) {
        localValid := true;
        lastChar := c;
      } else {
        NotEmail(email, i);
        return None;
      }
      i := i + 1;
    }
    if !localValid {
      NoAtNoEmail(email);
      return None;
    }
    at := Some(i);
  }

  /** What the scanner's flags say of the label it is in. */
  ghost predicate LabelEnd(cur: string, lastChar: char, domainValid: bool, allAlpha: bool) {
    && lastChar == (if cur == "" then '.' else cur[|cur| - 1])
    && (domainValid <==> cur != "" && cur[|cur| - 1] != '-')
    && (allAlpha <==> AllLetters(cur))
  }

  lemma LabelEndPush(cur: string, lastChar: char, domainValid: bool, allAlpha: bool, c: char)
    requires LabelEnd(cur, lastChar, domainValid, allAlpha)
    ensures c != '.' ==> LabelEnd(cur + [c], c, c != '-', allAlpha && Letter(c))
    ensures LabelEnd("", '.', false, true)
  {
    if AllLetters(cur + [c]) {
      forall k | 0 <= k < |cur| ensures Letter(cur[k]) {
        assert (cur + [c])[k] == cur[k];
      }
      assert (cur + [c])[|cur|] == c;
    }
  }

  /** The scanner's state after `n` characters of the domain `d`. */
  ghost predicate State(d: string, n: nat, labelLength: nat, lastChar: char, domainValid: bool, allAlpha: bool)
    requires n <= |d|
  {
    var labels := Split(d[..n]);
    Scanned(labels, n) && labelLength == LabelLength(labels) && LabelEnd(Last(labels), lastChar, domainValid, allAlpha)
  }

  /** The tests of one round. */
  predicate Passes(n: nat, labelLength: nat, lastChar: char, c: char) {
    && n <= 253 && labelLength <= 63 && c != '@' && Allowed(c)
    && (c == '.' || c == '-' ==> lastChar != '.' && lastChar != '-')
  }

  lemma RoundScans(d: string, n: nat, labelLength: nat, lastChar: char, domainValid: bool, allAlpha: bool)
    requires n < |d| && State(d, n, labelLength, lastChar, domainValid, allAlpha)
    ensures Scanned(Split(d[..n + 1]), n + 1) <==> Passes(n, labelLength, lastChar, d[n])
  {
    var labels, c := Split(d[..n]), d[n];
    SplitStep(d, n);
    PushScanned(labels, n, c);
    if c == '.' {
      assert IsLabel(Last(labels)) <==> lastChar != '.' && lastChar != '-';
    }
  }

  lemma RoundRejects(d: string, n: nat, labelLength: nat, lastChar: char, domainValid: bool, allAlpha: bool)
    requires n < |d| && State(d, n, labelLength, lastChar, domainValid, allAlpha)
    requires !Passes(n, labelLength, lastChar, d[n])
    ensures !IsDomain(d)
  {
    RoundScans(d, n, labelLength, lastChar, domainValid, allAlpha);
    DomainIffSplit(d);
    if |d| <= DOMAIN_MAX && AreLabels(Split(d)) {
      DomainScans(d, n + 1);
    }
  }

  lemma RoundKeeps(d: string, n: nat, labelLength: nat, lastChar: char, domainValid: bool, allAlpha: bool)
    requires n < |d| && State(d, n, labelLength, lastChar, domainValid, allAlpha)
    requires Passes(n, labelLength, lastChar, d[n])
    ensures if d[n] == '.' then State(d, n + 1, 1, '.', false, true)
            else State(d, n + 1, labelLength + 1, d[n], d[n] != '-', allAlpha && Letter(d[n]))
  {
    RoundScans(d, n, labelLength, lastChar, domainValid, allAlpha);
    SplitStep(d, n);
    LabelEndPush(Last(Split(d[..n])), lastChar, domainValid, allAlpha, d[n]);
  }

  lemma Round(d: string, n: nat, labelLength: nat, lastChar: char, domainValid: bool, allAlpha: bool)
    requires n < |d| && State(d, n, labelLength, lastChar, domainValid, allAlpha)
    ensures !Passes(n, labelLength, lastChar, d[n]) ==> !IsDomain(d)
    ensures Passes(n, labelLength, lastChar, d[n]) ==>
              if d[n] == '.' then State(d, n + 1, 1, '.', false, true)
              else State(d, n + 1, labelLength + 1, d[n], d[n] != '-', allAlpha && Letter(d[n]))
  {
    if Passes(n, labelLength, lastChar, d[n]) {
      RoundKeeps(d, n, labelLength, lastChar, domainValid, allAlpha);
    } else {
      RoundRejects(d, n, labelLength, lastChar, domainValid, allAlpha);
    }
  }

  lemma EndOfScan(d: string, labelLength: nat, lastChar: char, domainValid: bool, allAlpha: bool)
    requires State(d, |d|, labelLength, lastChar, domainValid, allAlpha)
    ensures IsDomain(d) <==> domainValid && allAlpha
  {
    assert d[..|d|] == d;
    ScannedAreLabels(Split(d), |d|);
    DomainIffSplit(d);
  }

  /** Second phase, over the domain after the at sign. */
  method ScanDomain(email: string, start: nat) returns (ok: bool)
    ensures start <= |email| ==> (ok <==> IsDomain(email[start..]))
    ensures start > |email| ==> !ok
  {
    var allAlpha, domainValid := true, false;
    var domainLength, labelLength := 0, 0;
    var lastChar := '.';
    var i := start;
    ghost var d := if start <= |email| then email[start..] else "";
    while i < |email|
      invariant start <= |email| ==> i == start + domainLength <= |email|
      invariant start > |email| ==> i == start && domainLength == 0
      invariant 0 <= domainLength <= |d| && 0 <= labelLength
      invariant State(d, domainLength, labelLength, lastChar, domainValid, allAlpha)
    {
      var c := email[i];
      assert d[domainLength] == c;
      Round(d, domainLength, labelLength, lastChar, domainValid, allAlpha);
      if domainLength > 253 || labelLength > 63 || c == '@' {
        return false;
      }
      if c == '.' {
        if lastChar == '.' || lastChar == '-' {
          return false;
        }
        labelLength := 0;
        domainValid := false;
        allAlpha := true;
      } else if c == '-' {
        if lastChar == '.' || lastChar == '-' {
          return false;
        }
        domainValid := false;
        allAlpha := false;
      } else if Allowed(c) {
        domainValid := true;
        if (c < 'a' || c > 'z') && (c < 'A' || c > 'Z') {
          allAlpha := false;
        }
      } else {
        return false;
      }
      lastChar := c;
      i := i + 1;
      domainLength := domainLength + 1;
      labelLength := labelLength + 1;
    }
    EndOfScan(d, labelLength, lastChar, domainValid, allAlpha);
    ok := domainValid && allAlpha;
  }

  /** The scanner accepts exactly the grammar. */
  method VerifyEmail(email: string) returns (ok: bool)
    ensures ok <==> IsEmail(email)
  {
    var at := ScanLocal(email);
    if at.None? {
      return false;
    }
    ok := ScanDomain(email, at.value + 1);
    if at.value < |email| {
      EmailIffAt(email, at.value);
    } else {
      NoAtNoEmail(email);
    }
  }
}
