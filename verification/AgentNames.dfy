/** Names under which agents are restarted: sanitising any label into a legal alias, and the
    ladder of alternatives tried when a name is taken. */
module AgentNames {
  import opened Prelude

  predicate IsLower(c: char) { 'a' <= c <= 'z' }
  predicate IsUpper(c: char) { 'A' <= c <= 'Z' }
  predicate IsDigit(c: char) { '0' <= c <= '9' }

  predicate IsAliasChar(c: char) {
    IsLower(c) || IsDigit(c) || c == '-' || c == '_'
  }

  /** The server's rule: `^[a-z][a-z0-9_-]{0,31}$`. */
  predicate IsValidAlias(s: string) {
    && 1 <= |s| <= 32
    && IsLower(s[0])
    && forall i | 0 <= i < |s| :: IsAliasChar(s[i])
  }

  lemma ValidMeans(s: string)
    ensures IsValidAlias(s) <==>
            && 1 <= |s| <= 32 && 'a' <= s[0] <= 'z'
            && forall i | 0 <= i < |s| :: 'a' <= s[i] <= 'z' || '0' <= s[i] <= '9' || s[i] in "-_"
  {
    assert forall c :: IsAliasChar(c) <==> 'a' <= c <= 'z' || '0' <= c <= '9' || c in "-_";
  }

  // ---------------------------------------------------------------- alias

  function ToLower(c: char): char {
    if IsUpper(c) then 'a' + (c - 'A') else c
  }

  /** The character a seed character is turned into. */
  function Clean(c: char): char {
    var l := ToLower(c);
    if IsLower(l) || IsDigit(l) || l == '_' then l else '-'
  }

  predicate EndsInDash(s: string) {
    s != "" && s[|s| - 1] == '-'
  }

  /** Clean every character and keep one dash of each run. */
  function Squash(s: string): string {
    if s == "" then ""
    else
      var before := Squash(s[..|s| - 1]);
      var c := Clean(s[|s| - 1]);
      if c == '-' && EndsInDash(before) then before else before + [c]
  }

  function TrimStart(s: string): string {
    if s != "" && s[0] == '-' then TrimStart(s[1..]) else s
  }

  function TrimEnd(s: string): string {
    if EndsInDash(s) then TrimEnd(s[..|s| - 1]) else s
  }

  function AliasOf(seed: string): string {
    var trimmed := TrimEnd(TrimStart(Squash(seed)));
    var started := if trimmed == "" || !IsLower(trimmed[0]) then "re-" + trimmed else trimmed;
    var cut := TrimEnd(Truncate(started, 28));
    if cut == "" then "reopened" else cut
  }

  /** `alias`: the loop with its `last_dash` flag. */
  method Alias(seed: string) returns (out: string)
    ensures out == AliasOf(seed)
  {
    out := "";
    var lastDash := false;
    for i := 0 to |seed|
      invariant out == Squash(seed[..i])
      invariant lastDash == EndsInDash(out)
    {
      assert seed[..i + 1][..i] == seed[..i];
      var ch := ToLower(seed[i]);
      var c := if IsLower(ch) || IsDigit(ch) || ch == '_' then ch else '-';
      if c == '-' {
        if lastDash { continue; }
        lastDash := true;
      } else {
        lastDash := false;
      }
      out := out + [c];
    }
    assert seed[..|seed|] == seed;
    out := TrimEnd(TrimStart(out));
    if out == "" || !IsLower(out[0]) { out := "re-" + out; }
    out := TrimEnd(Truncate(out, 28));
    if out == "" { out := "reopened"; }
  }

  /** Legal characters and no two dashes in a row. */
  predicate Tidy(s: string) {
    && (forall i | 0 <= i < |s| :: IsAliasChar(s[i]))
    && (forall i | 0 < i < |s| :: s[i] != '-' || s[i - 1] != '-')
  }

  /** What every alias looks like. */
  predicate Canonical(s: string) {
    && Tidy(s)
    && 1 <= |s| <= 28
    && IsLower(s[0])
    && !EndsInDash(s)
  }

  lemma SquashIsTidy(s: string)
    ensures Tidy(Squash(s))
  {
  }

  lemma TrimStartIsSuffix(s: string) returns (k: nat)
    ensures k <= |s| && TrimStart(s) == s[k..]
    ensures TrimStart(s) != "" ==> TrimStart(s)[0] != '-'
  {
    k := 0;
    if s != "" && s[0] == '-' {
      var j := TrimStartIsSuffix(s[1..]);
      k := j + 1;
    }
  }

  lemma TrimEndIsPrefix(s: string) returns (k: nat)
    ensures k <= |s| && TrimEnd(s) == s[..k]
    ensures !EndsInDash(TrimEnd(s))
    ensures s != "" && s[0] != '-' ==> 1 <= k
  {
    k := |s|;
    if EndsInDash(s) {
      k := TrimEndIsPrefix(s[..|s| - 1]);
    }
  }

  /** Every string, empty and non-ASCII ones included, becomes a legal name with room for a
      ladder suffix, without doubled or trailing dashes. */
  lemma AliasIsCanonical(seed: string)
    ensures Canonical(AliasOf(seed)) && IsValidAlias(AliasOf(seed))
  {
    TrimmedIsTidy(seed);
    var trimmed := TrimEnd(TrimStart(Squash(seed)));
    var started := if trimmed == "" || !IsLower(trimmed[0]) then "re-" + trimmed else trimmed;
    CutIsCanonical(started);
  }

  lemma TrimmedIsTidy(seed: string)
    ensures
      var trimmed := TrimEnd(TrimStart(Squash(seed)));
      Tidy(trimmed) && (trimmed != "" ==> trimmed[0] != '-')
  {
    SquashIsTidy(seed);
    var squashed := Squash(seed);
    var a := TrimStartIsSuffix(squashed);
    var b := TrimEndIsPrefix(TrimStart(squashed));
    assert TrimEnd(TrimStart(squashed)) == squashed[a..a + b];
  }

  lemma CutIsCanonical(started: string)
    requires Tidy(started) && started != "" && IsLower(started[0])
    ensures Canonical(TrimEnd(Truncate(started, 28)))
  {
    var c := TrimEndIsPrefix(Truncate(started, 28));
    assert TrimEnd(Truncate(started, 28)) == started[..c];
  }

  lemma SquashKeepsTidy(s: string)
    requires Tidy(s)
    ensures Squash(s) == s
  {
    if s != "" {
      SquashKeepsTidy(s[..|s| - 1]);
    }
  }

  /** The aliases are exactly the canonical names: sanitising changes nothing else, so it is
      idempotent. */
  lemma AliasFixesExactlyCanonical(s: string)
    ensures AliasOf(s) == s <==> Canonical(s)
    ensures AliasOf(AliasOf(s)) == AliasOf(s)
  {
    AliasIsCanonical(s);
    KeepsCanonical(AliasOf(s));
    if Canonical(s) { KeepsCanonical(s); }
  }

  lemma KeepsCanonical(s: string)
    requires Canonical(s)
    ensures AliasOf(s) == s
  {
    SquashKeepsTidy(s);
    assert TrimStart(s) == s && TrimEnd(s) == s && Truncate(s, 28) == s;
  }

  // ---------------------------------------------------------------- what an alias keeps

  /** A seed character as it appears in a name: small letters, digits and underscores stay,
      capital letters become small, everything else is a dash. */
  lemma CleanMeans(c: char)
    ensures 'a' <= c <= 'z' || '0' <= c <= '9' || c == '_' ==> Clean(c) == c
    ensures 'A' <= c <= 'Z' ==> Clean(c) as int == c as int + 32
    ensures !('a' <= c <= 'z') && !('A' <= c <= 'Z') && !('0' <= c <= '9') && c != '_' ==> Clean(c) == '-'
  {
  }

  /** Position `i` is a dash after a dash. */
  predicate RepeatsDash(s: string, i: nat)
    requires i < |s|
  {
    Clean(s[i]) == '-' && i > 0 && Clean(s[i - 1]) == '-'
  }

  /** The first `k` characters, cleaned, without the dashes that follow a dash. */
  function Kept(s: string, k: nat): string
    requires k <= |s|
  {
    if k == 0 then "" else Kept(s, k - 1) + if RepeatsDash(s, k - 1) then "" else [Clean(s[k - 1])]
  }

  lemma {:induction false} SquashKeeps(s: string, k: nat)
    requires k <= |s|
    ensures Squash(s[..k]) == Kept(s, k)
    ensures k > 0 ==> (EndsInDash(Kept(s, k)) <==> Clean(s[k - 1]) == '-')
  {
    if k > 0 {
      SquashKeeps(s, k - 1);
      assert s[..k][..k - 1] == s[..k - 1] && s[..k][k - 1] == s[k - 1];
    } else {
      assert s[..0] == "";
    }
  }

  predicate AllDashes(s: string) {
    forall i | 0 <= i < |s| :: s[i] == '-'
  }

  lemma TrimStartTakesDashes(s: string) returns (k: nat)
    ensures k <= |s| && TrimStart(s) == s[k..] && AllDashes(s[..k])
    ensures k < |s| ==> s[k] != '-'
  {
    k := 0;
    if s != "" && s[0] == '-' {
      var j := TrimStartTakesDashes(s[1..]);
      k := j + 1;
      assert s[..k] == [s[0]] + s[1..][..j];
    }
  }

  lemma {:induction false} TrimEndTakesDashes(s: string) returns (k: nat)
    ensures k <= |s| && TrimEnd(s) == s[..k] && AllDashes(s[k..])
    ensures k > 0 ==> s[k - 1] != '-'
  {
    k := |s|;
    if EndsInDash(s) {
      var rest := s[..|s| - 1];
      k := TrimEndTakesDashes(rest);
      assert rest[..k] == s[..k];
      assert forall i | k <= i < |rest| :: s[i] == rest[k..][i - k];
    }
  }

  /** `trim_matches`: what stands between the dashes at both ends. */
  lemma TrimMeans(s: string) returns (a: nat, b: nat)
    ensures a <= b <= |s| && TrimEnd(TrimStart(s)) == s[a..b]
    ensures AllDashes(s[..a]) && AllDashes(s[b..])
    ensures a < b ==> s[a] != '-' && s[b - 1] != '-'
  {
    a := TrimStartTakesDashes(s);
    var rest := s[a..];
    var k := TrimEndTakesDashes(rest);
    b := a + k;
    assert rest[..k] == s[a..b] && rest[k..] == s[b..];
  }

  /** `named`, cut to 28 characters and there to its last one that is no dash. */
  predicate CutTo(named: string, cut: nat) {
    && 0 < cut <= Min(28, |named|) && named[cut - 1] != '-'
    && forall i | cut <= i < Min(28, |named|) :: named[i] == '-'
  }

  lemma CutMeans(named: string) returns (cut: nat)
    requires named != "" && named[0] != '-'
    ensures CutTo(named, cut) && TrimEnd(Truncate(named, 28)) == named[..cut]
  {
    var long := Truncate(named, 28);
    cut := TrimEndTakesDashes(long);
    assert forall i | cut <= i < |long| :: named[i] == long[cut..][i - cut];
  }

  /** The alias is the cleaned seed without repeated dashes and without dashes at its ends,
      with `re-` in front unless it then starts with a letter, cut. */
  lemma AliasMeans(seed: string) returns (a: nat, b: nat, cut: nat)
    ensures
      var clean := Kept(seed, |seed|);
      && a <= b <= |clean| && AllDashes(clean[..a]) && AllDashes(clean[b..])
      && (a < b ==> clean[a] != '-' && clean[b - 1] != '-')
      && var named := if a < b && 'a' <= clean[a] <= 'z' then clean[a..b] else "re-" + clean[a..b];
         CutTo(named, cut) && AliasOf(seed) == named[..cut]
  {
    var clean := Kept(seed, |seed|);
    SquashKeeps(seed, |seed|);
    assert seed[..|seed|] == seed;
    a, b := TrimMeans(clean);
    cut := CutMeans(if a < b && 'a' <= clean[a] <= 'z' then clean[a..b] else "re-" + clean[a..b]);
  }

  // ---------------------------------------------------------------- the ladder

  function Digit(n: nat): char
    requires n < 10
  {
    '0' + (n as char)
  }

  function Candidate(base: string, n: nat): string
    requires n < 10
  {
    Truncate(base, 30) + ['-', Digit(n)]
  }

  function Candidates(base: string): seq<string> {
    [base, Candidate(base, 2), Candidate(base, 3), Candidate(base, 4), Candidate(base, 5)]
  }

  /** `alias_candidates`: the base and four numbered names that still fit. */
  method AliasCandidates(base: string) returns (out: seq<string>)
    ensures out == Candidates(base)
  {
    out := [base];
    for n := 2 to 6
      invariant out == Candidates(base)[..n - 1]
    {
      var suffix := ['-', Digit(n)];
      var b := base;
      if |b| + |suffix| > 32 { b := Truncate(b, 32 - |suffix|); }
      assert b == Truncate(base, 30) && Candidates(base)[n - 1] == Candidate(base, n);
      out := out + [b + suffix];
    }
  }

  /** For every alias the ladder is five different legal names: the validity filter in front
      of it removes nothing, and no rename repeats a name. */
  lemma LadderOfAliasIsSound(seed: string)
    ensures
      var ladder := Candidates(AliasOf(seed));
      && |ladder| == 5 && Distinct(ladder)
      && (forall i | 0 <= i < 5 :: IsValidAlias(ladder[i]))
      && Filter(ladder, IsValidAlias) == ladder
  {
    AliasIsCanonical(seed);
    LadderIsDistinctExactlyWhen(AliasOf(seed));
    LadderIsValid(AliasOf(seed));
    FilterAll(Candidates(AliasOf(seed)), IsValidAlias);
  }

  /** The base comes first, then the base cut to 30 characters with -2 to -5. */
  lemma LadderNames(base: string)
    ensures |Candidates(base)| == 5 && Candidates(base)[0] == base
    ensures forall n | 2 <= n <= 5 ::
              Candidates(base)[n - 1] == base[..Min(30, |base|)] + "-" + ["012345"[n]]
  {
  }

  lemma LadderIsValid(base: string)
    requires IsValidAlias(base)
    ensures forall i | 0 <= i < 5 :: IsValidAlias(Candidates(base)[i])
  {
  }

  /** For any base, long or short, legal or not, the ladder repeats a name exactly when the
      base has 32 characters and already ends in one of the ladder's own suffixes. */
  lemma LadderIsDistinctExactlyWhen(base: string)
    ensures Distinct(Candidates(base)) <==>
            !(|base| == 32 && base[30] == '-' && base[31] in {'2', '3', '4', '5'})
  {
    var ladder := Candidates(base);
    forall n, m | 2 <= n < m <= 5 ensures Candidate(base, n) != Candidate(base, m) {
      var k := |Truncate(base, 30)|;
      assert Candidate(base, n)[k + 1] == Digit(n) && Candidate(base, m)[k + 1] == Digit(m);
    }
    if |base| == 32 {
      forall n | 2 <= n <= 5 ensures base == Candidate(base, n) <==> base[30] == '-' && base[31] == Digit(n) {
        assert base == base[..30] + [base[30], base[31]];
      }
      if base[30] == '-' && base[31] in {'2', '3', '4', '5'} {
        var n := (base[31] - '0') as nat;
        assert ladder[0] == ladder[n - 1];
      }
    }
  }
}
