/**
 * Who the accounts are: the address grammar that marks an account as a credential's, and the one
 * line between credentials and people. Strings are ASCII.
 */
module Identity {
  import opened Common

  const MachineDomain := "machines.kitchen.local"
  const PlatformDomain := "platform.kitchen.local"

  predicate IsLabelEdge(c: char) {
    'a' <= c <= 'z' || '0' <= c <= '9'
  }

  /** One DNS label: at most 32 lowercase letters, digits and dashes, with no dash at either end. */
  predicate IsLabel(value: string) {
    && 1 <= |value| <= 32
    && IsLabelEdge(value[0]) && IsLabelEdge(value[|value| - 1])
    && forall i :: 0 <= i < |value| ==> IsLabelEdge(value[i]) || value[i] == '-'
  }

  predicate IsBlank(c: char) {
    c == ' ' || '\t' <= c <= '\r'
  }

  /** The blanks of ASCII: space, tab, and the four between a line feed and a carriage return. */
  const Blanks := " \t\n\U{000B}\U{000C}\r"

  lemma BlanksAre(c: char)
    ensures IsBlank(c) <==> c in Blanks
  {
    assert Blanks[0] == ' ' && Blanks[1] == '\t' && Blanks[2] == '\n';
    assert Blanks[3] as int == 11 && Blanks[4] as int == 12 && Blanks[5] == '\r';
  }

  function LowerChar(c: char): char {
    if 'A' <= c <= 'Z' then (c as int + 32) as char else c
  }

  function ToLower(s: string): (r: string)
    ensures |r| == |s| && forall i :: 0 <= i < |s| ==> r[i] == LowerChar(s[i])
  {
    seq(|s|, i requires 0 <= i < |s| => LowerChar(s[i]))
  }

  function TrimStart(s: string): string {
    if s != "" && IsBlank(s[0]) then TrimStart(s[1..]) else s
  }

  function TrimEnd(s: string): string {
    if s != "" && IsBlank(s[|s| - 1]) then TrimEnd(s[..|s| - 1]) else s
  }

  function NormalizeEmail(email: string): string {
    ToLower(TrimEnd(TrimStart(email)))
  }

  predicate EndsWith(s: string, suffix: string) {
    |suffix| <= |s| && s[|s| - |suffix|..] == suffix
  }

  function MachineAddress(project: string, key: string): string {
    project + "." + key + "@" + MachineDomain
  }

  function PlatformAddress(name: string): string {
    name + "@" + PlatformDomain
  }

  predicate IsMachineAccount(email: string) {
    EndsWith(NormalizeEmail(email), "@" + MachineDomain)
  }

  predicate IsPlatformAccount(email: string) {
    EndsWith(NormalizeEmail(email), "@" + PlatformDomain)
  }

  function LocalPart(email: string, domain: string): string
    requires EndsWith(NormalizeEmail(email), "@" + domain)
  {
    var normalized := NormalizeEmail(email);
    normalized[..|normalized| - (|domain| + 1)]
  }

  function PlatformIdentity(email: string): Option<string> {
    if !IsPlatformAccount(email) then None
    else
      var name := LocalPart(email, PlatformDomain);
      if IsLabel(name) then Some(name) else None
  }

  /** The pieces of a string between the separators. */
  function Split(s: string, separator: char): (parts: seq<string>)
    ensures |parts| > 0
  {
    if s == "" then [""]
    else if s[0] == separator then [""] + Split(s[1..], separator)
    else
      var rest := Split(s[1..], separator);
      [[s[0]] + rest[0]] + rest[1..]
  }

  function Join(parts: seq<string>, separator: char): string
    requires |parts| > 0
  {
    if |parts| == 1 then parts[0] else parts[0] + [separator] + Join(parts[1..], separator)
  }

  function MachineIdentity(email: string): Option<(string, string)> {
    if !IsMachineAccount(email) then None
    else
      var parts := Split(LocalPart(email, MachineDomain), '.');
      if |parts| == 2 && IsLabel(parts[0]) && IsLabel(parts[1]) then Some((parts[0], parts[1])) else None
  }

  predicate IsServiceAccount(serviceEmail: string, email: string) {
    email != "" && NormalizeEmail(email) == NormalizeEmail(serviceEmail)
  }

  predicate IsPerson(serviceEmail: string, email: string) {
    !IsServiceAccount(serviceEmail, email) && !IsMachineAccount(email) && !IsPlatformAccount(email)
  }

  // ---- Splitting ----

  // ---- The normal form, without the functions that make it ----

  /** Two letters that differ in case at most; any other character is only itself. */
  predicate SameLetter(a: char, b: char) {
    || a == b
    || ('A' <= a <= 'Z' && b as int == a as int + 32)
    || ('A' <= b <= 'Z' && a as int == b as int + 32)
  }

  predicate SameButCase(x: string, y: string) {
    |x| == |y| && forall i :: 0 <= i < |x| ==> SameLetter(x[i], y[i])
  }

  predicate AllBlank(s: string) {
    forall i :: 0 <= i < |s| ==> s[i] in Blanks
  }

  /** No upper-case letter, and no blank at either end. */
  predicate IsNormal(n: string) {
    && (forall i :: 0 <= i < |n| ==> !('A' <= n[i] <= 'Z'))
    && (n != "" ==> n[0] !in Blanks && n[|n| - 1] !in Blanks)
  }

  predicate NormalBetween(n: string, email: string, k: nat, m: nat) {
    k <= m <= |email| && AllBlank(email[..k]) && AllBlank(email[m..]) && SameButCase(email[k..m], n)
  }

  /** A normal string that the address is, but for blanks around it and the case of its letters. */
  predicate IsNormalFormOf(n: string, email: string) {
    IsNormal(n) && exists k, m :: 0 <= k <= m <= |email| && NormalBetween(n, email, k, m)
  }

  lemma {:induction false} TrimStartAt(s: string, k: nat)
    requires k <= |s| && AllBlank(s[..k]) && (k < |s| ==> s[k] !in Blanks)
    ensures TrimStart(s) == s[k..]
  {
    if s != "" {
      BlanksAre(s[0]);
    }
    if k > 0 {
      assert s[..k][0] == s[0];
      assert s[1..][..k - 1] == s[..k][1..];
      TrimStartAt(s[1..], k - 1);
    }
  }

  lemma {:induction false} TrimEndAt(s: string, m: nat)
    requires m <= |s| && AllBlank(s[m..]) && (m > 0 ==> s[m - 1] !in Blanks)
    ensures TrimEnd(s) == s[..m]
  {
    if s != "" {
      BlanksAre(s[|s| - 1]);
    }
    if m < |s| {
      assert s[m..][|s| - 1 - m] == s[|s| - 1];
      assert s[..|s| - 1][m..] == s[m..][..|s| - 1 - m];
      TrimEndAt(s[..|s| - 1], m);
    }
  }

  lemma {:induction false} TrimStartCuts(s: string) returns (k: nat)
    ensures k <= |s| && TrimStart(s) == s[k..] && AllBlank(s[..k]) && (k < |s| ==> s[k] !in Blanks)
  {
    k := 0;
    if s != "" {
      BlanksAre(s[0]);
      if IsBlank(s[0]) {
        k := TrimStartCuts(s[1..]);
        k := k + 1;
        assert s[..k] == [s[0]] + s[1..][..k - 1];
      }
    }
  }

  lemma {:induction false} TrimEndCuts(s: string) returns (m: nat)
    ensures m <= |s| && TrimEnd(s) == s[..m] && AllBlank(s[m..]) && (m > 0 ==> s[m - 1] !in Blanks)
  {
    m := |s|;
    if s != "" {
      BlanksAre(s[|s| - 1]);
      if IsBlank(s[|s| - 1]) {
        m := TrimEndCuts(s[..|s| - 1]);
        assert s[m..] == s[..|s| - 1][m..] + [s[|s| - 1]];
      }
    }
  }

  lemma LowerIsSameButCase(middle: string, n: string)
    requires forall i :: 0 <= i < |n| ==> !('A' <= n[i] <= 'Z')
    ensures ToLower(middle) == n <==> SameButCase(middle, n)
  {
    if SameButCase(middle, n) {
      forall i | 0 <= i < |n| ensures ToLower(middle)[i] == n[i] {
        assert SameLetter(middle[i], n[i]);
      }
    }
    if ToLower(middle) == n {
      forall i | 0 <= i < |n| ensures SameLetter(middle[i], n[i]) {
        assert n[i] == LowerChar(middle[i]);
      }
    }
  }

  lemma BlankHasNoCase(a: char, b: char)
    requires SameLetter(a, b)
    ensures a in Blanks <==> b in Blanks
  {
    BlanksAre(a);
    BlanksAre(b);
  }

  lemma NormalCuts(email: string) returns (k: nat, m: nat)
    ensures k <= m <= |email| && IsNormal(NormalizeEmail(email)) && NormalBetween(NormalizeEmail(email), email, k, m)
  {
    var n := NormalizeEmail(email);
    k := TrimStartCuts(email);
    var rest := email[k..];
    var length := TrimEndCuts(rest);
    m := k + length;
    var middle := rest[..length];
    assert email[k..m] == middle && email[m..] == rest[length..];
    assert n == ToLower(middle);
    assert forall i :: 0 <= i < |n| ==> !('A' <= LowerChar(middle[i]) <= 'Z');
    LowerIsSameButCase(middle, n);
    if n != "" {
      BlankHasNoCase(middle[0], n[0]);
      BlankHasNoCase(middle[length - 1], n[length - 1]);
    }
  }

  lemma NormalizedIsNormal(email: string)
    ensures IsNormalFormOf(NormalizeEmail(email), email)
  {
    var k, m := NormalCuts(email);
  }

  lemma NormalFormIsReached(email: string, n: string, k: nat, m: nat)
    requires IsNormal(n) && NormalBetween(n, email, k, m)
    ensures NormalizeEmail(email) == n
  {
    var middle := email[k..m];
    if n == "" {
      assert email == email[..k] + email[m..];
      TrimStartAt(email, |email|);
    } else {
      BlankHasNoCase(middle[0], n[0]);
      BlankHasNoCase(middle[|n| - 1], n[|n| - 1]);
      TrimStartAt(email, k);
      assert email[k..][m - k..] == email[m..];
      TrimEndAt(email[k..], m - k);
      assert email[k..][..m - k] == middle;
    }
    LowerIsSameButCase(middle, n);
  }

  /** Normalising an address gives the one normal string that it is but for case and blanks around it. */
  lemma NormalFormIsExact(email: string, n: string)
    ensures NormalizeEmail(email) == n <==> IsNormalFormOf(n, email)
  {
    NormalizedIsNormal(email);
    if IsNormalFormOf(n, email) {
      var k, m :| 0 <= k <= m <= |email| && NormalBetween(n, email, k, m);
      NormalFormIsReached(email, n, k, m);
    }
  }

  lemma AllBlankConcat(x: string, y: string)
    requires AllBlank(x) && AllBlank(y)
    ensures AllBlank(x + y)
  {
  }

  lemma CaseKeepsBlank(x: string, y: string)
    requires SameButCase(x, y) && AllBlank(x)
    ensures AllBlank(y)
  {
    forall i | 0 <= i < |y| ensures y[i] in Blanks {
      BlankHasNoCase(x[i], y[i]);
    }
  }

  lemma OneNormalForm(x: string, before: string, y: string, after: string)
    requires SameButCase(x, y) && AllBlank(before) && AllBlank(after)
    ensures NormalizeEmail(x) == NormalizeEmail(before + y + after)
  {
    var n := NormalizeEmail(x);
    var k, m := NormalCuts(x);
    SameLettersBetween(n, x, y, k, m);
    CaseKeepsBlank(x[..k], y[..k]);
    CaseKeepsBlank(x[m..], y[m..]);
    BetweenMoves(n, before, y, after, k, m);
    NormalFormIsReached(before + y + after, n, |before| + k, |before| + m);
  }

  lemma SameLettersBetween(n: string, x: string, y: string, k: nat, m: nat)
    requires IsNormal(n) && SameButCase(x, y) && k <= m <= |x| && SameButCase(x[k..m], n)
    ensures SameButCase(y[k..m], n)
  {
    forall i | 0 <= i < |n| ensures SameLetter(y[k..m][i], n[i]) {
      assert SameLetter(x[k..m][i], n[i]) && SameLetter(x[k + i], y[k + i]);
    }
  }

  lemma BetweenMoves(n: string, before: string, y: string, after: string, k: nat, m: nat)
    requires NormalBetween(n, y, k, m) && AllBlank(before) && AllBlank(after)
    ensures NormalBetween(n, before + y + after, |before| + k, |before| + m)
  {
    var email := before + y + after;
    AllBlankConcat(before, y[..k]);
    AllBlankConcat(y[m..], after);
    Slices(before, y, after, k, m);
  }

  lemma Slices(before: string, y: string, after: string, k: nat, m: nat)
    requires k <= m <= |y|
    ensures var email := before + y + after;
            && email[..|before| + k] == before + y[..k]
            && email[|before| + m..] == y[m..] + after
            && email[|before| + k..|before| + m] == y[k..m]
  {
  }

  /**
   * Addresses that differ in the case of letters and in blanks around them are one: they have one
   * normal form and one identity, and they are both people or neither, but for the empty address,
   * which is nobody's service account even where the service address is blank.
   */
  lemma CaseAndBlanksDoNotMatter(serviceEmail: string, x: string, before: string, y: string, after: string)
    requires SameButCase(x, y) && AllBlank(before) && AllBlank(after)
    ensures var email := before + y + after;
            && NormalizeEmail(x) == NormalizeEmail(email)
            && MachineIdentity(x) == MachineIdentity(email) && PlatformIdentity(x) == PlatformIdentity(email)
            && (IsPerson(serviceEmail, x) == IsPerson(serviceEmail, email) <==>
                  (x == "") == (email == "") || NormalizeEmail(serviceEmail) != "")
  {
    var email := before + y + after;
    OneNormalForm(x, before, y, after);
    if (x == "") != (email == "") {
      assert x == "" && email != "";
      NormalFormIsReached("", "", 0, 0);
    }
  }

  lemma ServiceAddressInAnyCase()
    ensures !IsPerson("operator@kitchen.local", "Operator@Kitchen.local")
  {
    CaseAndBlanksDoNotMatter("operator@kitchen.local", "operator@kitchen.local", "", "Operator@Kitchen.local", "");
    assert "" + "Operator@Kitchen.local" + "" == "Operator@Kitchen.local";
  }

  /** Who is a person, by the normal form: not the service account, and under neither reserved domain. */
  lemma PersonIsExact(serviceEmail: string, email: string, n: string)
    requires IsNormalFormOf(n, email)
    ensures IsPerson(serviceEmail, email) <==>
            && !(email != "" && IsNormalFormOf(n, serviceEmail))
            && !EndsWith(n, "@machines.kitchen.local") && !EndsWith(n, "@platform.kitchen.local")
  {
    NormalFormIsExact(email, n);
    NormalFormIsExact(serviceEmail, n);
    DomainsAre();
  }

  lemma DomainsAre()
    ensures "@" + MachineDomain == "@machines.kitchen.local" && "@" + PlatformDomain == "@platform.kitchen.local"
  {
  }

  /** The pattern as it is written: an edge, and then at most thirty of anything allowed and an edge, or nothing. */
  lemma LabelIsThePattern(value: string)
    ensures IsLabel(value) <==>
            && value != "" && ('a' <= value[0] <= 'z' || '0' <= value[0] <= '9')
            && (|value| == 1 ||
                var last := value[|value| - 1];
                && ('a' <= last <= 'z' || '0' <= last <= '9') && |value| - 2 <= 30
                && forall i :: 0 < i < |value| - 1 ==>
                     'a' <= value[i] <= 'z' || '0' <= value[i] <= '9' || value[i] == '-')
  {
  }

  lemma {:induction false} SplitJoins(s: string, separator: char)
    ensures Join(Split(s, separator), separator) == s
    ensures forall i :: 0 <= i < |Split(s, separator)| ==> separator !in Split(s, separator)[i]
  {
    if s != "" {
      var rest := Split(s[1..], separator);
      SplitJoins(s[1..], separator);
      assert s == [s[0]] + s[1..];
      if s[0] == separator {
        assert Split(s, separator)[1..] == rest;
      } else {
        assert Split(s, separator)[1..] == rest[1..];
        assert |rest| > 1 ==> Join(rest, separator) == rest[0] + [separator] + Join(rest[1..], separator);
      }
    }
  }

  lemma {:induction false} SplitOfPiece(piece: string, separator: char)
    requires separator !in piece
    ensures Split(piece, separator) == [piece]
  {
    if piece != "" {
      SplitOfPiece(piece[1..], separator);
      assert piece == [piece[0]] + piece[1..];
    }
  }

  lemma {:induction false} SplitOfPair(a: string, b: string, separator: char)
    requires separator !in a && separator !in b
    ensures Split(a + [separator] + b, separator) == [a, b]
  {
    var s := a + [separator] + b;
    if a == "" {
      SplitOfPiece(b, separator);
      assert s[1..] == b;
    } else {
      SplitOfPair(a[1..], b, separator);
      assert s[1..] == a[1..] + [separator] + b;
      assert a == [a[0]] + a[1..];
    }
  }

  lemma LabelHasNo(value: string, c: char)
    requires IsLabel(value) && !IsLabelEdge(c) && c != '-'
    ensures c !in value
  {
  }

  // ---- Normalising ----

  /** An address with no upper-case letter and no blank at either end is already normal. */
  lemma NormalIsFixed(email: string)
    requires email != "" && !IsBlank(email[0]) && !IsBlank(email[|email| - 1])
    requires forall i :: 0 <= i < |email| ==> LowerChar(email[i]) == email[i]
    ensures NormalizeEmail(email) == email
  {
  }

  lemma AddressIsNormal(email: string, local: string, domain: string)
    requires local != "" && IsLabelEdge(local[0]) && email == local + "@" + domain
    requires forall i :: 0 <= i < |local| ==> IsLabelEdge(local[i]) || local[i] in "-."
    requires domain == MachineDomain || domain == PlatformDomain
    ensures NormalizeEmail(email) == email
    ensures EndsWith(NormalizeEmail(email), "@" + domain) && LocalPart(email, domain) == local
  {
    assert forall i :: 0 <= i < |domain| ==> LowerChar(domain[i]) == domain[i];
    assert email == local + ("@" + domain);
    forall i | 0 <= i < |email| ensures LowerChar(email[i]) == email[i] {
      assert i > |local| ==> email[i] == domain[i - |local| - 1];
    }
    assert email[|email| - 1] == domain[|domain| - 1];
    NormalIsFixed(email);
    assert email[|local|..] == "@" + domain && email[..|local|] == local;
  }

  // ---- The grammar ----

  /** Parsing inverts printing on every pair of labels. */
  lemma MachineIdentityInvertsAddress(project: string, key: string)
    requires IsLabel(project) && IsLabel(key)
    ensures MachineIdentity(MachineAddress(project, key)) == Some((project, key))
  {
    var local := project + "." + key;
    assert MachineAddress(project, key) == local + "@" + MachineDomain;
    AddressIsNormal(MachineAddress(project, key), local, MachineDomain);
    LabelHasNo(project, '.');
    LabelHasNo(key, '.');
    SplitOfPair(project, key, '.');
  }

  lemma PlatformIdentityInvertsAddress(name: string)
    requires IsLabel(name)
    ensures PlatformIdentity(PlatformAddress(name)) == Some(name)
  {
    AddressIsNormal(PlatformAddress(name), name, PlatformDomain);
  }

  lemma AcceptedAddressPrintsBack(email: string)
    requires MachineIdentity(email).Some?
    ensures var (project, key) := MachineIdentity(email).value;
            IsLabel(project) && IsLabel(key) && NormalizeEmail(email) == MachineAddress(project, key)
  {
    var normalized, local := NormalizeEmail(email), LocalPart(email, MachineDomain);
    var parts := Split(local, '.');
    SplitJoins(local, '.');
    assert Join(parts, '.') == parts[0] + ['.'] + Join(parts[1..], '.');
    assert parts[1..] == [parts[1]];
    assert normalized == local + ("@" + MachineDomain);
    assert MachineAddress(parts[0], parts[1]) == local + ("@" + MachineDomain);
  }

  /** An address is accepted exactly when it is, once normalised, what printing its answer gives. */
  lemma MachineIdentityIsExact(email: string, project: string, key: string)
    ensures MachineIdentity(email) == Some((project, key)) <==>
            IsLabel(project) && IsLabel(key) && NormalizeEmail(email) == MachineAddress(project, key)
  {
    if MachineIdentity(email).Some? {
      AcceptedAddressPrintsBack(email);
    }
    if IsLabel(project) && IsLabel(key) && NormalizeEmail(email) == MachineAddress(project, key) {
      PrintedAddressIsAccepted(email, project, key);
    }
  }

  lemma PrintedAddressIsAccepted(email: string, project: string, key: string)
    requires IsLabel(project) && IsLabel(key) && NormalizeEmail(email) == MachineAddress(project, key)
    ensures MachineIdentity(email) == Some((project, key))
  {
    var address := MachineAddress(project, key);
    MachineIdentityInvertsAddress(project, key);
    AddressIsNormal(address, project + "." + key, MachineDomain);
    assert NormalizeEmail(address) == NormalizeEmail(email);
    assert MachineIdentity(email) == MachineIdentity(address);
  }

  lemma PlatformIdentityIsExact(email: string, name: string)
    ensures PlatformIdentity(email) == Some(name) <==>
            IsLabel(name) && NormalizeEmail(email) == PlatformAddress(name)
  {
    if PlatformIdentity(email) == Some(name) {
      AcceptedPlatformAddressPrintsBack(email);
    }
    if IsLabel(name) && NormalizeEmail(email) == PlatformAddress(name) {
      PrintedPlatformAddressIsAccepted(email, name);
    }
  }

  lemma AcceptedPlatformAddressPrintsBack(email: string)
    requires PlatformIdentity(email).Some?
    ensures IsLabel(PlatformIdentity(email).value)
    ensures NormalizeEmail(email) == PlatformAddress(PlatformIdentity(email).value)
  {
    var normalized := NormalizeEmail(email);
    var at := |normalized| - (|PlatformDomain| + 1);
    assert normalized == normalized[..at] + normalized[at..];
    assert normalized[at..] == "@" + PlatformDomain;
    assert normalized[..at] + ("@" + PlatformDomain) == normalized[..at] + "@" + PlatformDomain;
  }

  lemma PrintedPlatformAddressIsAccepted(email: string, name: string)
    requires IsLabel(name) && NormalizeEmail(email) == PlatformAddress(name)
    ensures PlatformIdentity(email) == Some(name)
  {
    var address := PlatformAddress(name);
    PlatformIdentityInvertsAddress(name);
    AddressIsNormal(address, name, PlatformDomain);
    assert NormalizeEmail(address) == NormalizeEmail(email);
    assert PlatformIdentity(email) == PlatformIdentity(address);
  }

  /** No address is both kinds of credential, and neither kind is ever a person, whoever the service account is. */
  lemma KindsAreDisjoint(serviceEmail: string, email: string)
    ensures !(IsMachineAccount(email) && IsPlatformAccount(email))
    ensures MachineIdentity(email).Some? || PlatformIdentity(email).Some? ==> !IsPerson(serviceEmail, email)
    ensures MachineIdentity(email).None? || PlatformIdentity(email).None?
  {
    assert |"@" + MachineDomain| == |"@" + PlatformDomain|;
    assert ("@" + MachineDomain)[1] == 'm' && ("@" + PlatformDomain)[1] == 'p';
  }

  // ---- Listing people ----

  function Filter(table: seq<string>, keep: string -> bool): seq<string> {
    if table == [] then []
    else Filter(table[..|table| - 1], keep) + if keep(table[|table| - 1]) then [table[|table| - 1]] else []
  }

  /** The definition the platform means: the table's people, oldest first. */
  function People(serviceEmail: string, table: seq<string>): seq<string> {
    Filter(table, email => IsPerson(serviceEmail, email))
  }

  /** What the program does: the exact service address is left out by the query, the rest afterwards. */
  function ListPeople(serviceEmail: string, table: seq<string>): seq<string> {
    Filter(Filter(table, email => email != serviceEmail), email => IsPerson(serviceEmail, email))
  }

  lemma {:induction false} FilterTwice(table: seq<string>, p: string -> bool, q: string -> bool)
    ensures Filter(Filter(table, p), q) == Filter(table, email => p(email) && q(email))
  {
    if table != [] {
      var front, last := table[..|table| - 1], table[|table| - 1];
      FilterTwice(front, p, q);
      if p(last) {
        assert (Filter(front, p) + [last])[..|Filter(front, p)|] == Filter(front, p);
      } else {
        assert Filter(front, p) + [] == Filter(front, p);
      }
    }
  }

  /** A stricter filter keeps the same list exactly when it refuses nothing the other accepts there. */
  lemma {:induction false} FilterAgrees(table: seq<string>, p: string -> bool, q: string -> bool)
    requires forall email :: p(email) ==> q(email)
    ensures |Filter(table, p)| <= |Filter(table, q)|
    ensures Filter(table, p) == Filter(table, q) <==> forall email :: email in table ==> p(email) == q(email)
  {
    if table != [] {
      var front, last := table[..|table| - 1], table[|table| - 1];
      FilterAgrees(front, p, q);
      assert table == front + [last];
      var x, y := Filter(front, p), Filter(front, q);
      if p(last) {
        assert (x + [last])[..|x|] == x && (y + [last])[..|y|] == y;
      } else {
        assert x + [] == x && y + [] == y;
        assert q(last) ==> p(last) != q(last) && |y + [last]| > |x|;
      }
      assert (forall email :: email in table ==> p(email) == q(email)) <==>
             p(last) == q(last) && forall email :: email in front ==> p(email) == q(email);
    }
  }

  /**
   * The two-step listing is the one-step definition, except where an installation configures no
   * service address at all and a row has an empty one too: a person by the definition, left out by
   * the query. The configuration substitutes an address for an empty one, so it is never reached.
   */
  lemma ListPeopleIsThePeople(serviceEmail: string, table: seq<string>)
    ensures ListPeople(serviceEmail, table) == People(serviceEmail, table) <==>
            !(serviceEmail == "" && "" in table)
  {
    var p, q := (email: string) => email != serviceEmail, (email: string) => IsPerson(serviceEmail, email);
    var both := (email: string) => p(email) && q(email);
    FilterTwice(table, p, q);
    FilterAgrees(table, both, q);
    assert q("") <==> (serviceEmail != "" || !IsServiceAccount(serviceEmail, "")) by {
      assert NormalizeEmail("") == "";
    }
    assert forall email :: both(email) == q(email) <==> email != serviceEmail || !q(email);
    assert serviceEmail != "" ==> !q(serviceEmail);
  }

  datatype Edit = Add(at: nat, email: string) | Remove(at: nat)

  function Apply(table: seq<string>, edit: Edit): seq<string>
    requires if edit.Add? then edit.at <= |table| else edit.at < |table|
  {
    match edit
    case Add(at, email) => table[..at] + [email] + table[at..]
    case Remove(at) => table[..at] + table[at + 1..]
  }

  /** A sequence of edits each of which adds or removes a credential's account. */
  ghost predicate EditsCredentials(serviceEmail: string, table: seq<string>, edits: seq<Edit>)
    decreases |edits|
  {
    edits != [] ==>
      && (if edits[0].Add? then edits[0].at <= |table| else edits[0].at < |table|)
      && !IsPerson(serviceEmail, if edits[0].Add? then edits[0].email else table[edits[0].at])
      && EditsCredentials(serviceEmail, Apply(table, edits[0]), edits[1..])
  }

  function ApplyAll(serviceEmail: string, table: seq<string>, edits: seq<Edit>): seq<string>
    requires EditsCredentials(serviceEmail, table, edits)
    decreases |edits|
  {
    if edits == [] then table else ApplyAll(serviceEmail, Apply(table, edits[0]), edits[1..])
  }

  /** Credentials come and go; who the people are does not change, nor whether there are any. */
  lemma {:induction false} CredentialsDoNotCount(serviceEmail: string, table: seq<string>, edits: seq<Edit>)
    requires EditsCredentials(serviceEmail, table, edits)
    ensures People(serviceEmail, ApplyAll(serviceEmail, table, edits)) == People(serviceEmail, table)
    decreases |edits|
  {
    if edits != [] {
      OneEdit(serviceEmail, table, edits[0]);
      CredentialsDoNotCount(serviceEmail, Apply(table, edits[0]), edits[1..]);
    }
  }

  lemma OneEdit(serviceEmail: string, table: seq<string>, edit: Edit)
    requires if edit.Add? then edit.at <= |table| else edit.at < |table|
    requires !IsPerson(serviceEmail, if edit.Add? then edit.email else table[edit.at])
    ensures People(serviceEmail, Apply(table, edit)) == People(serviceEmail, table)
  {
    var at := edit.at;
    if edit.Add? {
      OneCredential(serviceEmail, table[..at], edit.email, table[at..]);
      assert table == table[..at] + table[at..];
    } else {
      OneCredential(serviceEmail, table[..at], table[at], table[at + 1..]);
      assert table == table[..at] + [table[at]] + table[at + 1..];
    }
  }

  lemma OneCredential(serviceEmail: string, before: seq<string>, email: string, after: seq<string>)
    requires !IsPerson(serviceEmail, email)
    ensures People(serviceEmail, before + [email] + after) == People(serviceEmail, before + after)
  {
    FilterWithout(before, email, after, e => IsPerson(serviceEmail, e));
  }

  lemma FilterWithout(before: seq<string>, email: string, after: seq<string>, p: string -> bool)
    requires !p(email)
    ensures Filter(before + [email] + after, p) == Filter(before + after, p)
  {
    FilterConcat(before + [email], after, p);
    FilterConcat(before, after, p);
    assert (before + [email])[..|before|] == before;
  }

  lemma {:induction false} FilterConcat(x: seq<string>, y: seq<string>, p: string -> bool)
    ensures Filter(x + y, p) == Filter(x, p) + Filter(y, p)
  {
    if y == [] {
      assert x + y == x;
    } else {
      FilterConcat(x, y[..|y| - 1], p);
      assert (x + y)[..|x + y| - 1] == x + y[..|y| - 1];
    }
  }

  lemma AddressesAsWritten()
    ensures MachineAddress("shop", "ci") == "shop.ci@machines.kitchen.local"
    ensures PlatformAddress("backup") == "backup@platform.kitchen.local"
  {
  }
}
