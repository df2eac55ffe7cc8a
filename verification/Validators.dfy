/** Input validation: the static rules in Go (internal/security/validator.go), the guard in Rust
    (rust/input-guard/src/lib.rs, run by main.rs as an external process), and their hybrid. Inputs are
    ASCII, where lengths in characters and bytes agree and both languages trim the same characters. */
module Validators {
  import opened Text

  datatype Reason = Empty | TooLong | Token(text: string) | Control | Unsupported | Unavailable
  datatype Verdict = Accept | Reject(reason: Reason) | RuntimeError

  const MAX_LENGTH := 120

  predicate OccursAt(s: string, token: string, i: nat) {
    i + |token| <= |s| && s[i..i + |token|] == token
  }

  predicate Contains(s: string, token: string) {
    exists i :: 0 <= i <= |s| && OccursAt(s, token, i)
  }

  /** The first listed token that occurs decides. */
  function CheckTokens(s: string, tokens: seq<string>): Verdict {
    if tokens == [] then Accept
    else if Contains(s, tokens[0]) then Reject(Token(tokens[0]))
    else CheckTokens(s, tokens[1..])
  }

  lemma {:induction false} TokensExact(s: string, tokens: seq<string>)
    ensures CheckTokens(s, tokens).Accept? <==> forall k :: 0 <= k < |tokens| ==> !Contains(s, tokens[k])
    ensures !CheckTokens(s, tokens).RuntimeError?
  {
    if tokens == [] {
    } else {
      TokensExact(s, tokens[1..]);
      hide Contains;
      if forall k :: 0 <= k < |tokens[1..]| ==> !Contains(s, tokens[1..][k]) {
        assert forall k :: 1 <= k < |tokens| ==> tokens[k] == tokens[1..][k - 1];
      }
    }
  }

  // ---- Go ----

  const GO_TOKENS := ["&&", "||", "../", "$(", "`", ";"]

  function StaticRules(input: string): Verdict {
    var t := Trim(input);
    if t == "" then Reject(Empty)
    else if |t| > MAX_LENGTH then Reject(TooLong)
    else CheckTokens(t, GO_TOKENS)
  }

  // ---- Rust ----

  const RUST_TOKENS := ["&&", "||", "../", "$(", "`", ";", "|", ">", "<"]

  predicate IsControl(c: char) {
    c < ' ' || c as int == 127
  }

  predicate IsAllowed(c: char) {
    '0' <= c <= '9' || 'A' <= c <= 'Z' || 'a' <= c <= 'z' || c == ' ' || c == '-' || c == '_' || c == '.'
  }

  predicate AllAllowed(s: string) {
    forall i :: 0 <= i < |s| ==> IsAllowed(s[i])
  }

  predicate HasControl(s: string) {
    exists i :: 0 <= i < |s| && IsControl(s[i])
  }

  function Guard(input: string, tokens: seq<string>): Verdict {
    var t := Trim(input);
    if t == "" then Reject(Empty)
    else if |t| > MAX_LENGTH then Reject(TooLong)
    else if HasControl(t) then Reject(Control)
    else if CheckTokens(t, tokens) != Accept then CheckTokens(t, tokens)
    else if !AllAllowed(t) then Reject(Unsupported)
    else Accept
  }

  function ValidateInput(input: string): Verdict {
    Guard(input, RUST_TOKENS)
  }

  /** main.rs: an empty argument is a usage error, not a verdict. */
  function GuardProcess(input: string): Verdict {
    if Trim(input) == "" then RuntimeError else ValidateInput(input)
  }

  // ---- Running the guard as a process ----

  /** What decides, on the machine, whether a process can be started: whether a bare name is found on the
      search path, whether the working directory is known, whether the file the name stands for is there and
      does what main.rs does, and how long an argument may get, its terminator included. */
  datatype Machine = Machine(resolves: bool, knowsDirectory: bool, runs: bool, argumentLimit: nat)

  /** The components filepath.Clean keeps of a relative path. */
  function CleanParts(parts: seq<string>): seq<string> {
    if parts == [] then []
    else
      var kept, last := CleanParts(parts[..|parts| - 1]), parts[|parts| - 1];
      if last == "" || last == "." then kept
      else if last == ".." && kept != [] && kept[|kept| - 1] != ".." then kept[..|kept| - 1]
      else kept + [last]
  }

  predicate Rooted(path: string) {
    path != "" && path[0] == '/'
  }

  /** filepath.Clean makes "." of it. */
  predicate CleansToDot(path: string) {
    !Rooted(path) && CleanParts(Split(path, '/')) == []
  }

  /** ValidateExecutable gives an error. A name with a slash is taken as a path, which is not looked up. */
  predicate Refused(binary: string, m: Machine) {
    var name := Trim(binary);
    || name == "" || '\0' in name
    || (if '/' in name || '\\' in name then CleansToDot(name) || (!Rooted(name) && !m.knowsDirectory)
        else !m.resolves)
  }

  /** The input cannot be passed as an argument. */
  predicate Unpassable(input: string, m: Machine) {
    '\0' in input || |input| >= m.argumentLimit
  }

  /** ExternalProcessValidator.Validate: a refused name is an ordinary error, a process that cannot be
      started or breaks down a runtime error. */
  function External(input: string, binary: string, m: Machine): Verdict {
    if Refused(binary, m) then Reject(Unavailable)
    else if !m.runs || Unpassable(input, m) then RuntimeError
    else GuardProcess(input)
  }

  // ---- The hybrid ----

  /** HybridValidator.Validate over what its two parts say. */
  function Hybrid(internal: Verdict, external: Verdict, failOpen: bool): Verdict {
    if internal != Accept then internal
    else if external == RuntimeError && failOpen then Accept
    else external
  }

  datatype Options = Options(externalEnabled: bool, binary: string, failOpen: bool)

  /** NewValidator puts the guard behind the static rules only if it is enabled and named. */
  predicate UsesGuard(o: Options) {
    o.externalEnabled && Trim(o.binary) != ""
  }

  function Validate(input: string, o: Options, m: Machine): Verdict {
    if UsesGuard(o) then Hybrid(StaticRules(input), External(input, o.binary, m), o.failOpen) else StaticRules(input)
  }

  // ---- The two rule sets, spelled out ----

  /** The first listed token that occurs is the one reported. */
  lemma {:induction false} TokensFirst(s: string, tokens: seq<string>, k: nat)
    requires k < |tokens| && Contains(s, tokens[k]) && forall j :: 0 <= j < k ==> !Contains(s, tokens[j])
    ensures CheckTokens(s, tokens) == Reject(Token(tokens[k]))
  {
    hide Contains;
    if k == 0 {
    } else {
      assert tokens[0] == tokens[0] && !Contains(s, tokens[0]);
      TokensFirst(s, tokens[1..], k - 1);
    }
  }

  /** No command separator, substitution or parent directory starts at any position. */
  predicate Plain(t: string) {
    forall i :: 0 <= i < |t| ==>
      && t[i] != '`' && t[i] != ';'
      && (i + 1 < |t| ==> t[i..i + 2] != "&&" && t[i..i + 2] != "||" && t[i..i + 2] != "$(")
      && (i + 2 < |t| ==> t[i..i + 3] != "../")
  }

  lemma ContainsAt(s: string, token: string, i: nat)
    requires OccursAt(s, token, i)
    ensures Contains(s, token)
  {
  }

  lemma OccursNotPlain(t: string, k: nat, i: nat)
    requires k < |GO_TOKENS| && OccursAt(t, GO_TOKENS[k], i)
    ensures !Plain(t)
  {
    assert t[i] == t[i..i + |GO_TOKENS[k]|][0] == GO_TOKENS[k][0];
  }

  lemma PlainIff(t: string)
    ensures Plain(t) <==> forall k :: 0 <= k < |GO_TOKENS| ==> !Contains(t, GO_TOKENS[k])
  {
    if exists k :: 0 <= k < |GO_TOKENS| && Contains(t, GO_TOKENS[k]) {
      var k :| 0 <= k < |GO_TOKENS| && Contains(t, GO_TOKENS[k]);
      var i :| 0 <= i <= |t| && OccursAt(t, GO_TOKENS[k], i);
      OccursNotPlain(t, k, i);
    }
    if !Plain(t) {
      var i :| 0 <= i < |t| &&
               !(&& t[i] != '`' && t[i] != ';'
                 && (i + 1 < |t| ==> t[i..i + 2] != "&&" && t[i..i + 2] != "||" && t[i..i + 2] != "$(")
                 && (i + 2 < |t| ==> t[i..i + 3] != "../"));
      hide Contains;
      NotPlainAt(t, i);
    }
  }

  lemma NotPlainAt(t: string, i: nat)
    requires i < |t|
    requires || t[i] == '`' || t[i] == ';'
             || (i + 1 < |t| && (t[i..i + 2] == "&&" || t[i..i + 2] == "||" || t[i..i + 2] == "$("))
             || (i + 2 < |t| && t[i..i + 3] == "../")
    ensures exists k :: 0 <= k < |GO_TOKENS| && Contains(t, GO_TOKENS[k])
  {
    assert t[i..i + 1] == [t[i]];
    var k := if t[i] == '`' then 4 else if t[i] == ';' then 5
             else if i + 2 < |t| && t[i..i + 3] == "../" then 2
             else if t[i..i + 2] == "&&" then 0 else if t[i..i + 2] == "||" then 1 else 3;
    assert OccursAt(t, GO_TOKENS[k], i);
    ContainsAt(t, GO_TOKENS[k], i);
  }

  /** What the static rules accept and why they reject, with every length and token written out. */
  lemma StaticRulesExactly(input: string)
    ensures StaticRules(input).Accept? <==> 1 <= |Trim(input)| <= 120 && Plain(Trim(input))
    ensures StaticRules(input) == Reject(Empty) <==> Trim(input) == ""
    ensures StaticRules(input) == Reject(TooLong) <==> |Trim(input)| > 120
  {
    var t := Trim(input);
    PlainIff(t);
    TokensExact(t, GO_TOKENS);
    TokenReason(t, GO_TOKENS);
    hide Plain, CheckTokens, Contains, Trim;
  }

  lemma {:induction false} TokenReason(s: string, tokens: seq<string>)
    ensures CheckTokens(s, tokens).Reject? ==> CheckTokens(s, tokens).reason.Token?
  {
    if tokens == [] {
    } else {
      TokenReason(s, tokens[1..]);
    }
  }

  /** What the guard accepts and why it rejects, with every length and character written out. */
  lemma GuardExactly(input: string)
    ensures var t := Trim(input);
            && (ValidateInput(input).Accept? <==>
                && 1 <= |t| <= 120
                && forall i :: 0 <= i < |t| ==>
                     || 'a' <= t[i] <= 'z' || 'A' <= t[i] <= 'Z' || '0' <= t[i] <= '9'
                     || t[i] == ' ' || t[i] == '-' || t[i] == '_' || t[i] == '.')
            && (ValidateInput(input) == Reject(Empty) <==> t == "")
            && (ValidateInput(input) == Reject(TooLong) <==> |t| > 120)
            && (ValidateInput(input) == Reject(Control) <==>
                1 <= |t| <= 120 && exists i :: 0 <= i < |t| && (t[i] as int < 32 || t[i] as int == 127))
  {
    var t := Trim(input);
    GuardAcceptsExactly(input);
    TokenReason(t, RUST_TOKENS);
    assert AllAllowed(t) <==> forall i :: 0 <= i < |t| ==> IsAllowed(t[i]);
    assert HasControl(t) <==> exists i :: 0 <= i < |t| && IsControl(t[i]);
    hide CheckTokens, Trim, AllAllowed, HasControl;
  }

  /** Which token either side reports: the first of its list, in the order written out here, that occurs. */
  lemma ReportedToken(input: string, k: nat)
    ensures var t := Trim(input);
            var go := ["&&", "||", "../", "$(", "`", ";"];
            var rust := ["&&", "||", "../", "$(", "`", ";", "|", ">", "<"];
            && (1 <= |t| <= 120 && k < |go| && Contains(t, go[k])
                && (forall j :: 0 <= j < k ==> !Contains(t, go[j])) ==>
                  StaticRules(input) == Reject(Token(go[k])))
            && (1 <= |t| <= 120 && !HasControl(t) && k < |rust| && Contains(t, rust[k])
                && (forall j :: 0 <= j < k ==> !Contains(t, rust[j])) ==>
                  ValidateInput(input) == Reject(Token(rust[k])))
  {
    var t := Trim(input);
    hide Contains, CheckTokens, Trim, HasControl;
    if k < |GO_TOKENS| && Contains(t, GO_TOKENS[k]) && forall j :: 0 <= j < k ==> !Contains(t, GO_TOKENS[j]) {
      TokensFirst(t, GO_TOKENS, k);
    }
    if k < |RUST_TOKENS| && Contains(t, RUST_TOKENS[k]) && forall j :: 0 <= j < k ==> !Contains(t, RUST_TOKENS[j]) {
      TokensFirst(t, RUST_TOKENS, k);
    }
  }

  /** Which names are refused: blank ones, those with a NUL character, bare names that are not found, and paths
      that come to nothing or cannot be made absolute. A path from the root is never refused for being absent. */
  lemma RefusedExactly(binary: string, m: Machine)
    ensures var name := Trim(binary);
            var path := '/' in name || '\\' in name;
            && (name == "" || '\0' in name ==> Refused(binary, m))
            && (name != "" && '\0' !in name && !path ==> (Refused(binary, m) <==> !m.resolves))
            && (name != "" && '\0' !in name && name[0] == '/' ==> !Refused(binary, m))
            && (name != "" && '\0' !in name && path && name[0] != '/' ==>
                  (Refused(binary, m) <==> !m.knowsDirectory || CleanParts(Split(name, '/')) == []))
  {
    hide Trim, CleanParts, Split;
  }

  /** Cleaning keeps the components of a path without "..", leaving out empty ones and ".". */
  lemma {:induction false} CleanKeeps(parts: seq<string>)
    requires forall i :: 0 <= i < |parts| ==> parts[i] != ".."
    ensures forall x :: x in CleanParts(parts) <==> x in parts && x != "" && x != "."
  {
    if parts == [] {
    } else {
      CleanKeeps(parts[..|parts| - 1]);
      assert parts == parts[..|parts| - 1] + [parts[|parts| - 1]];
    }
  }

  /** And each ".." takes back the component before it. */
  lemma CleanGoesBack(parts: seq<string>, x: string)
    requires x != "" && x != "." && x != ".."
    ensures CleanParts(parts + [x] + [".."]) == CleanParts(parts)
  {
    assert (parts + [x] + [".."])[..|parts| + 1] == parts + [x];
    assert (parts + [x])[..|parts|] == parts;
  }

  // ---- How they relate ----

  /** Every token either side forbids contains a character the guard's allowlist rejects. */
  predicate Foreign(token: string) {
    exists j :: 0 <= j < |token| && !IsAllowed(token[j])
  }

  lemma TokensAreForeign(k: nat)
    ensures k < |GO_TOKENS| ==> Foreign(GO_TOKENS[k])
    ensures k < |RUST_TOKENS| ==> Foreign(RUST_TOKENS[k])
  {
    assert !IsAllowed("&&"[0]) && !IsAllowed("||"[0]) && !IsAllowed("../"[2]) && !IsAllowed("$("[0]);
    assert !IsAllowed("`"[0]) && !IsAllowed(";"[0]) && !IsAllowed("|"[0]) && !IsAllowed(">"[0]) && !IsAllowed("<"[0]);
  }

  lemma AllowedContainsNoForeign(s: string, token: string)
    requires AllAllowed(s) && Foreign(token)
    ensures !Contains(s, token)
  {
    var j :| 0 <= j < |token| && !IsAllowed(token[j]);
    forall i | 0 <= i <= |s| ensures !OccursAt(s, token, i) {
      if i + |token| <= |s| {
        assert s[i..i + |token|][j] == s[i + j];
      }
    }
  }

  lemma AllowedPassTokens(s: string)
    requires AllAllowed(s)
    ensures CheckTokens(s, GO_TOKENS) == Accept && CheckTokens(s, RUST_TOKENS) == Accept
  {
    hide CheckTokens, Contains, Foreign;
    forall k: nat | k < |GO_TOKENS| ensures !Contains(s, GO_TOKENS[k]) {
      TokensAreForeign(k);
      AllowedContainsNoForeign(s, GO_TOKENS[k]);
    }
    forall k: nat | k < |RUST_TOKENS| ensures !Contains(s, RUST_TOKENS[k]) {
      TokensAreForeign(k);
      AllowedContainsNoForeign(s, RUST_TOKENS[k]);
    }
    TokensExact(s, GO_TOKENS);
    TokensExact(s, RUST_TOKENS);
  }

  /** What the guard accepts, in one line: the allowlist and the length decide everything. */
  lemma GuardAcceptsExactly(input: string)
    ensures ValidateInput(input).Accept? <==> 1 <= |Trim(input)| <= MAX_LENGTH && AllAllowed(Trim(input))
    ensures !ValidateInput(input).RuntimeError?
  {
    var t := Trim(input);
    TokensExact(t, RUST_TOKENS);
    if AllAllowed(t) {
      AllowedPassTokens(t);
      assert !HasControl(t);
    }
    hide CheckTokens, Trim;
  }

  /** The guard's token list never changes whether an input is accepted. */
  lemma TokenListIsRedundant(input: string)
    ensures Guard(input, RUST_TOKENS).Accept? <==> Guard(input, []).Accept?
  {
    GuardAcceptsExactly(input);
    assert AllAllowed(Trim(input)) ==> !HasControl(Trim(input));
  }

  /** Every input the guard accepts passes the static rules. */
  lemma GuardRefinesStaticRules(input: string)
    ensures ValidateInput(input).Accept? ==> StaticRules(input).Accept?
    ensures !StaticRules(input).RuntimeError?
  {
    GuardAcceptsExactly(input);
    TokensExact(Trim(input), GO_TOKENS);
    if AllAllowed(Trim(input)) {
      AllowedPassTokens(Trim(input));
    }
    hide CheckTokens, Trim, ValidateInput;
  }

  /** No token starts with a character that the text lacks altogether. */
  lemma TokensAbsent(s: string)
    requires forall c :: c in s ==> c !in "&|.$`;"
    ensures CheckTokens(s, GO_TOKENS) == Accept
  {
    forall k | 0 <= k < |GO_TOKENS| ensures !Contains(s, GO_TOKENS[k]) {
      assert GO_TOKENS[k][0] in "&|.$`;";
      forall i | 0 <= i <= |s| ensures !OccursAt(s, GO_TOKENS[k], i) {
        if i + |GO_TOKENS[k]| <= |s| {
          assert s[i..i + |GO_TOKENS[k]|][0] == s[i];
        }
      }
    }
    TokensExact(s, GO_TOKENS);
  }

  /** The converse fails. */
  lemma StaticRulesAreLaxer()
    ensures StaticRules("a:b").Accept? && !ValidateInput("a:b").Accept?
  {
    var s := "a:b";
    TrimTight(s);
    GuardAcceptsExactly(s);
    assert !IsAllowed(s[1]);
    TokensAbsent(s);
    hide CheckTokens, Trim, ValidateInput;
  }

  /** Trimming never drops a NUL character, and the guard rejects it. */
  lemma NulIsRejected(input: string)
    requires '\0' in input
    ensures '\0' in Trim(input) && !ValidateInput(input).Accept?
  {
    var pre, post := TrimSplits(input);
    GuardAcceptsExactly(input);
    hide Trim, ValidateInput;
    var i :| 0 <= i < |input| && input[i] == '\0';
    assert |pre| <= i < |pre| + |Trim(input)|;
    assert Trim(input)[i - |pre|] == '\0';
    assert !IsAllowed(Trim(input)[i - |pre|]);
  }

  /** The validator as configured, on every machine and for every input. Without the guard the static rules
      decide. A refused name rejects everything. If the process cannot do its work the static rules decide
      or nothing passes, as it fails open or closed. Otherwise the guard decides. */
  lemma HybridVerdict(input: string, o: Options, m: Machine)
    ensures Validate(input, o, m).Accept? <==>
            if !o.externalEnabled || Trim(o.binary) == "" then StaticRules(input).Accept?
            else if Refused(o.binary, m) then false
            else if !m.runs || '\0' in input || |input| >= m.argumentLimit then
              o.failOpen && StaticRules(input).Accept?
            else ValidateInput(input).Accept?
    ensures StaticRules(input).Reject? ==> Validate(input, o, m) == StaticRules(input)
    ensures UsesGuard(o) && StaticRules(input).Accept? && !Refused(o.binary, m) && m.runs && !Unpassable(input, m) ==>
              Validate(input, o, m) == ValidateInput(input)
  {
    GuardRefinesStaticRules(input);
    GuardAcceptsExactly(input);
    hide CheckTokens, ValidateInput, Trim, Refused;
  }

  /** While the guard can be run, the validator lets through what the guard rejects exactly when it fails
      open, the input cannot be passed, and the static rules but not the allowlist pass it; and it rejects
      what the guard accepts exactly when it fails closed and the input is too long to pass. */
  lemma HybridDiffersExactly(input: string, o: Options, m: Machine)
    requires UsesGuard(o) && !Refused(o.binary, m) && m.runs
    ensures Validate(input, o, m).Accept? && !ValidateInput(input).Accept? <==>
            o.failOpen && Unpassable(input, m) && StaticRules(input).Accept? && !AllAllowed(Trim(input))
    ensures !Validate(input, o, m).Accept? && ValidateInput(input).Accept? <==>
            !o.failOpen && |input| >= m.argumentLimit && ValidateInput(input).Accept?
  {
    HybridVerdict(input, o, m);
    GuardAcceptsExactly(input);
    GuardRefinesStaticRules(input);
    if '\0' in input {
      NulIsRejected(input);
    }
    assert StaticRules(input).Accept? ==> 1 <= |Trim(input)| <= MAX_LENGTH;
    hide Validate, ValidateInput, StaticRules, Trim, Refused;
  }

  /** Nothing at all gets through exactly when the guard is in use and its name is refused, or it fails
      closed and can be run on no input. */
  lemma RejectsEverythingIff(o: Options, m: Machine)
    ensures (forall input :: !Validate(input, o, m).Accept?) <==>
            UsesGuard(o) && (Refused(o.binary, m) || (!o.failOpen && (!m.runs || m.argumentLimit <= 1)))
  {
    var a := "a";
    TrimTight(a);
    TokensAbsent(a);
    GuardAcceptsExactly(a);
    assert StaticRules(a).Accept? && ValidateInput(a).Accept?;
    HybridVerdict(a, o, m);
    forall input ensures UsesGuard(o) && !o.failOpen && m.argumentLimit <= 1 ==> !Validate(input, o, m).Accept? {
      HybridVerdict(input, o, m);
      if input == "" {
        assert Trim(input) == "";
        GuardAcceptsExactly(input);
      }
    }
    forall input ensures UsesGuard(o) && (Refused(o.binary, m) || (!o.failOpen && !m.runs)) ==>
                           !Validate(input, o, m).Accept? {
      HybridVerdict(input, o, m);
    }
    hide Validate, ValidateInput, StaticRules, Trim, Refused;
  }

  /** A file that is not there is no refusal if it is named by a path: a fail-open validator then falls back
      to the static rules. */
  lemma AbsentPathFallsBack(input: string, o: Options, m: Machine)
    requires UsesGuard(o) && '/' in Trim(o.binary) && '\0' !in Trim(o.binary) && Rooted(Trim(o.binary))
    requires !m.runs && o.failOpen
    ensures Validate(input, o, m).Accept? <==> StaticRules(input).Accept?
  {
    HybridVerdict(input, o, m);
    hide Validate, StaticRules, Trim;
  }

  function Spaces(n: nat): (s: string)
    ensures |s| == n && AllSpace(s)
  {
    seq(n, _ => ' ')
  }

  lemma PaddedTrims(n: nat, core: string)
    requires Tight(core)
    ensures Trim(Spaces(n) + core) == core
  {
    TrimUnique(Spaces(n), core, []);
    assert Spaces(n) + core + [] == Spaces(n) + core;
  }

  /** Inputs that show both differences, whatever the limit: with a NUL character, and padded with spaces
      until they cannot be passed. */
  lemma HybridDiffers(o: Options, m: Machine)
    requires UsesGuard(o) && !Refused(o.binary, m) && m.runs
    ensures var padded := Spaces(m.argumentLimit) + "a:b";
            o.failOpen ==>
              && !ValidateInput("a\0b").Accept? && Validate("a\0b", o, m).Accept?
              && !ValidateInput(padded).Accept? && Validate(padded, o, m).Accept?
    ensures var padded := Spaces(m.argumentLimit) + "ab";
            !o.failOpen ==> ValidateInput(padded).Accept? && !Validate(padded, o, m).Accept?
  {
    var nul, bad, good := "a\0b", "a:b", "ab";
    assert nul[1] == '\0' && !IsAllowed(bad[1]);
    NulIsRejected(nul);
    TrimTight(nul);
    TokensAbsent(nul);
    HybridVerdict(nul, o, m);
    PaddedTrims(m.argumentLimit, bad);
    TokensAbsent(bad);
    GuardAcceptsExactly(Spaces(m.argumentLimit) + bad);
    HybridVerdict(Spaces(m.argumentLimit) + bad, o, m);
    PaddedTrims(m.argumentLimit, good);
    GuardAcceptsExactly(Spaces(m.argumentLimit) + good);
    HybridVerdict(Spaces(m.argumentLimit) + good, o, m);
    hide Validate, ValidateInput, CheckTokens, Trim, Refused;
  }
}
