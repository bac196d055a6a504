/** The text form of plugin capabilities, their normal form, and the decision whether a plugin may
    run (`PluginCapability`, `normalize_capabilities`, `evaluate_security_binding`). */
module PluginCapabilities {
  import opened Machine
  import opened SortedText

  datatype WorkspaceScope = Changed | Worktree

  datatype Capability =
    | NagiStateRead
    | NagiLayoutWrite
    | PaneContentRead
    | PaneInputWrite
    | WorkspaceFilesRead(scope: WorkspaceScope)
    | WorkspaceFilesWrite(scope: WorkspaceScope)
    | ProcessSpawn(commands: seq<string>)
    | Network(origin: string)
    | ClipboardWrite
    | NotificationsSend
    | MissionRead
    | MissionAttentionPropose
    | MissionEvidencePropose
    | SecretsRead(secret: string)

  datatype Error =
    | Unknown(text: string)
    | MissingScope(text: string)
    | InvalidWorkspaceScope(text: string)
    | InvalidProcessAllowlist(text: string)
    | InvalidNetworkOrigin(text: string)
    | InvalidNamedSecret(text: string)
    | Duplicate(text: string)
    | TooMany

  datatype Result<+T> = Ok(value: T) | Err(error: Error)

  /** The URL parser of another library: from text to its origin form. */
  type OriginParser = string -> Option<string>

  // ----- parsing -----

  predicate Alphanumeric(c: char) {
    'a' <= c <= 'z' || 'A' <= c <= 'Z' || '0' <= c <= '9'
  }

  predicate ValidId(text: string) {
    1 <= |text| <= 128 && forall i :: 0 <= i < |text| ==> Alphanumeric(text[i]) || text[i] in {'_', '-', '.'}
  }

  predicate ValidCommandName(text: string) {
    1 <= |text| <= 128 && forall i :: 0 <= i < |text| ==> Alphanumeric(text[i]) || text[i] in {'_', '-', '.', '+'}
  }

  predicate AllowedCommand(text: string) {
    ValidCommandName(text) && '/' !in text && '\\' !in text && text != "." && text != ".."
  }

  function ParseWorkspaceScope(raw: string): Result<WorkspaceScope> {
    if raw == "changed" then Ok(Changed) else if raw == "worktree" then Ok(Worktree)
    else Err(InvalidWorkspaceScope(raw))
  }

  function ParseProcessAllowlist(raw: string): Result<seq<string>> {
    var commands := TrimEach(SplitOn(raw, ','));
    if |commands| > 16 || exists i :: 0 <= i < |commands| && !AllowedCommand(commands[i]) then
      Err(InvalidProcessAllowlist(raw))
    else
      Ok(InsertAll(commands))
  }

  function ParseFixed(raw: string): Option<Capability> {
    if raw == "nagi.state.read" then Some(NagiStateRead)
    else if raw == "nagi.layout.write" then Some(NagiLayoutWrite)
    else if raw == "pane.content.read" then Some(PaneContentRead)
    else if raw == "pane.input.write" then Some(PaneInputWrite)
    else if raw == "clipboard.write" then Some(ClipboardWrite)
    else if raw == "notifications.send" then Some(NotificationsSend)
    else if raw == "mission.read" then Some(MissionRead)
    else if raw == "mission.attention.propose" then Some(MissionAttentionPropose)
    else if raw == "mission.evidence.propose" then Some(MissionEvidencePropose)
    else None
  }

  function ParseScoped(net: OriginParser, raw: string, family: string, scope: string): Result<Capability> {
    if family == "workspace.files.read" then
      var s := ParseWorkspaceScope(scope);
      if s.Err? then Err(s.error) else Ok(WorkspaceFilesRead(s.value))
    else if family == "workspace.files.write" then
      var s := ParseWorkspaceScope(scope);
      if s.Err? then Err(s.error) else Ok(WorkspaceFilesWrite(s.value))
    else if family == "process.spawn" then
      var s := ParseProcessAllowlist(scope);
      if s.Err? then Err(s.error) else Ok(ProcessSpawn(s.value))
    else if family == "network" then
      if net(scope).None? then Err(InvalidNetworkOrigin(scope)) else Ok(Network(net(scope).value))
    else if family == "secrets.read" then
      if ValidId(scope) then Ok(SecretsRead(scope)) else Err(InvalidNamedSecret(scope))
    else Err(Unknown(raw))
  }

  function Parse(net: OriginParser, raw: string): Result<Capability> {
    var at := IndexOf(raw, ':');
    if ParseFixed(raw).Some? then Ok(ParseFixed(raw).value)
    else if at == |raw| then
      if raw in {"workspace.files.read", "workspace.files.write", "process.spawn", "network", "secrets.read"}
      then Err(MissingScope(raw)) else Err(Unknown(raw))
    else ParseScoped(net, raw, raw[..at], raw[at + 1..])
  }

  // ----- printing -----

  function ScopeText(scope: WorkspaceScope): string {
    if scope.Changed? then "changed" else "worktree"
  }

  predicate Scoped(c: Capability) {
    c.WorkspaceFilesRead? || c.WorkspaceFilesWrite? || c.ProcessSpawn? || c.Network? || c.SecretsRead?
  }

  function FamilyText(c: Capability): string {
    match c
    case NagiStateRead => "nagi.state.read"
    case NagiLayoutWrite => "nagi.layout.write"
    case PaneContentRead => "pane.content.read"
    case PaneInputWrite => "pane.input.write"
    case WorkspaceFilesRead(_) => "workspace.files.read"
    case WorkspaceFilesWrite(_) => "workspace.files.write"
    case ProcessSpawn(_) => "process.spawn"
    case Network(_) => "network"
    case ClipboardWrite => "clipboard.write"
    case NotificationsSend => "notifications.send"
    case MissionRead => "mission.read"
    case MissionAttentionPropose => "mission.attention.propose"
    case MissionEvidencePropose => "mission.evidence.propose"
    case SecretsRead(_) => "secrets.read"
  }

  function ScopeOf(c: Capability): string
    requires Scoped(c)
  {
    match c
    case WorkspaceFilesRead(scope) => ScopeText(scope)
    case WorkspaceFilesWrite(scope) => ScopeText(scope)
    case ProcessSpawn(commands) => Join(commands, ',')
    case Network(origin) => origin
    case SecretsRead(secret) => secret
  }

  function Print(c: Capability): string {
    if Scoped(c) then FamilyText(c) + [':'] + ScopeOf(c) else FamilyText(c)
  }

  // ----- canonical capabilities -----

  /** What parsing can yield. */
  ghost predicate Canonical(net: OriginParser, c: Capability) {
    match c
    case ProcessSpawn(commands) =>
      1 <= |commands| <= 16 && Sorted(commands) && forall x :: x in commands ==> AllowedCommand(x)
    case Network(origin) => net(origin) == Some(origin)
    case SecretsRead(secret) => ValidId(secret)
    case _ => true
  }

  /** The origin form of an origin is itself. */
  ghost predicate StableOrigins(net: OriginParser) {
    forall raw :: net(raw).Some? ==> net(net(raw).value) == net(raw)
  }

  lemma ParsedIsCanonical(net: OriginParser, raw: string)
    requires StableOrigins(net) && Parse(net, raw).Ok?
    ensures Canonical(net, Parse(net, raw).value)
  {
    var at := IndexOf(raw, ':');
    if ParseFixed(raw).None? {
      ScopedIsCanonical(net, raw, raw[..at], raw[at + 1..]);
    }
  }

  lemma ScopedIsCanonical(net: OriginParser, raw: string, family: string, scope: string)
    requires StableOrigins(net) && ParseScoped(net, raw, family, scope).Ok?
    ensures Canonical(net, ParseScoped(net, raw, family, scope).value)
  {
    if family == "process.spawn" {
      AllowlistIsCanonical(net, scope);
    }
  }

  lemma AllowlistIsCanonical(net: OriginParser, scope: string)
    requires ParseProcessAllowlist(scope).Ok?
    ensures Canonical(net, ProcessSpawn(ParseProcessAllowlist(scope).value))
  {
    var commands := TrimEach(SplitOn(scope, ','));
    InsertAllSorts(commands);
    assert commands[0] in commands && commands[0] in InsertAll(commands);
  }

  lemma ScopedFamilyHasNoColon(c: Capability)
    requires Scoped(c)
    ensures ':' !in FamilyText(c)
  {}

  lemma FixedFamilyHasNoColon(c: Capability)
    requires !Scoped(c)
    ensures ':' !in FamilyText(c)
  {}

  lemma {:induction false} CommandIsTrimmed(x: string)
    requires AllowedCommand(x)
    ensures Trim(x) == x && ',' !in x
  {
    assert !Space(x[0]) && !Space(x[|x| - 1]);
  }

  /** The printed list of a canonical allow list parses back to it: splitting, trimming, sorting
      and removing duplicates undo nothing that joining keeps. */
  lemma AllowlistRoundTrip(commands: seq<string>)
    requires 1 <= |commands| <= 16 && Sorted(commands) && forall x :: x in commands ==> AllowedCommand(x)
    ensures ParseProcessAllowlist(Join(commands, ',')) == Ok(commands)
  {
    CommandsAreTrimmed(commands);
    SplitUndoesJoin(commands, ',');
    SortingSorted(commands);
  }

  lemma CommandsAreTrimmed(commands: seq<string>)
    requires forall x :: x in commands ==> AllowedCommand(x)
    ensures TrimEach(commands) == commands
    ensures forall i :: 0 <= i < |commands| ==> ',' !in commands[i] && AllowedCommand(commands[i])
  {
    forall i | 0 <= i < |commands|
      ensures Trim(commands[i]) == commands[i] && ',' !in commands[i] && AllowedCommand(commands[i])
    {
      assert commands[i] in commands;
      CommandIsTrimmed(commands[i]);
    }
  }

  lemma ScopedRoundTrip(net: OriginParser, c: Capability)
    requires Canonical(net, c) && Scoped(c)
    ensures ParseScoped(net, Print(c), FamilyText(c), ScopeOf(c)) == Ok(c)
  {
    if c.ProcessSpawn? {
      ProcessRoundTrip(net, Print(c), c.commands);
    } else if c.WorkspaceFilesRead? || c.WorkspaceFilesWrite? {
      WorkspaceRoundTrip(net, Print(c), c);
    } else {
      NamedRoundTrip(net, Print(c), c);
    }
  }

  lemma ProcessRoundTrip(net: OriginParser, raw: string, commands: seq<string>)
    requires Canonical(net, ProcessSpawn(commands))
    ensures ParseScoped(net, raw, "process.spawn", Join(commands, ',')) == Ok(ProcessSpawn(commands))
  {
    AllowlistRoundTrip(commands);
  }

  lemma WorkspaceRoundTrip(net: OriginParser, raw: string, c: Capability)
    requires c.WorkspaceFilesRead? || c.WorkspaceFilesWrite?
    ensures ParseScoped(net, raw, FamilyText(c), ScopeOf(c)) == Ok(c)
  {}

  lemma NamedRoundTrip(net: OriginParser, raw: string, c: Capability)
    requires Canonical(net, c) && (c.Network? || c.SecretsRead?)
    ensures ParseScoped(net, raw, FamilyText(c), ScopeOf(c)) == Ok(c)
  {}

  lemma FixedHasNoColon(raw: string)
    requires ':' in raw
    ensures ParseFixed(raw).None?
  {
    if ParseFixed(raw).Some? {
      FixedIsItsFamily(raw);
      FixedFamilyHasNoColon(ParseFixed(raw).value);
    }
  }

  lemma FixedIsItsFamily(raw: string)
    requires ParseFixed(raw).Some?
    ensures !Scoped(ParseFixed(raw).value) && raw == FamilyText(ParseFixed(raw).value)
  {}

  /** Printing a canonical capability and parsing the text gives it back. */
  lemma PrintedParsesBack(net: OriginParser, c: Capability)
    requires Canonical(net, c)
    ensures Parse(net, Print(c)) == Ok(c)
  {
    if Scoped(c) {
      var family, scope := FamilyText(c), ScopeOf(c);
      var text := Print(c);
      ScopedFamilyHasNoColon(c);
      IndexAfterPrefix(family, ':', scope);
      assert text[|family|] == ':' && text[..|family|] == family && text[|family| + 1..] == scope;
      FixedHasNoColon(text);
      ScopedRoundTrip(net, c);
    } else {
      FixedParsesBack(c);
    }
  }

  lemma FixedParsesBack(c: Capability)
    requires !Scoped(c)
    ensures ParseFixed(FamilyText(c)) == Some(c)
  {}

  // ----- normal form -----

  function NormalizeEach(net: OriginParser, raw: seq<string>): Result<seq<string>> {
    if raw == [] then Ok([])
    else
      var rest := NormalizeEach(net, raw[..|raw| - 1]);
      if rest.Err? then rest
      else
        var parsed := Parse(net, raw[|raw| - 1]);
        if parsed.Err? then Err(parsed.error)
        else if Print(parsed.value) in rest.value then Err(Duplicate(Print(parsed.value)))
        else Ok(Insert(rest.value, Print(parsed.value)))
  }

  function Normalize(net: OriginParser, raw: seq<string>): Result<seq<string>> {
    if |raw| > 64 then Err(TooMany) else NormalizeEach(net, raw)
  }

  lemma {:induction false} FirstErrorStays(net: OriginParser, raw: seq<string>, n: nat)
    requires n <= |raw| && NormalizeEach(net, raw[..n]).Err?
    ensures NormalizeEach(net, raw) == NormalizeEach(net, raw[..n])
  {
    if n == |raw| {
      assert raw[..n] == raw;
    } else {
      assert raw[..|raw| - 1][..n] == raw[..n];
      FirstErrorStays(net, raw[..|raw| - 1], n);
    }
  }

  method NormalizeCapabilities(net: OriginParser, raw: seq<string>) returns (r: Result<seq<string>>)
    ensures r == Normalize(net, raw)
  {
    if |raw| > 64 {
      return Err(TooMany);
    }
    var normalized: seq<string> := [];
    for i := 0 to |raw|
      invariant NormalizeEach(net, raw[..i]) == Ok(normalized)
    {
      assert raw[..i + 1][..i] == raw[..i];
      var parsed := Parse(net, raw[i]);
      if parsed.Err? {
        FirstErrorStays(net, raw, i + 1);
        return Err(parsed.error);
      }
      var canonical := Print(parsed.value);
      if canonical in normalized {
        FirstErrorStays(net, raw, i + 1);
        return Err(Duplicate(canonical));
      }
      normalized := Insert(normalized, canonical);
    }
    assert raw[..|raw|] == raw;
    return Ok(normalized);
  }

  /** The text is the printed form of some entry. */
  ghost predicate PrintedFrom(net: OriginParser, raw: seq<string>, text: string) {
    exists i :: 0 <= i < |raw| && Parse(net, raw[i]).Ok? && Print(Parse(net, raw[i]).value) == text
  }

  /** Strictly increasing, one entry per input, exactly the printed forms of the inputs, all of
      which parse. */
  ghost predicate FaithfulForm(net: OriginParser, raw: seq<string>, xs: seq<string>) {
    && Sorted(xs) && |xs| == |raw|
    && (forall i :: 0 <= i < |raw| ==> Parse(net, raw[i]).Ok?)
    && forall x :: x in xs <==> PrintedFrom(net, raw, x)
  }

  lemma FaithfulStep(net: OriginParser, rest: seq<string>, last: string, xs: seq<string>)
    requires FaithfulForm(net, rest, xs) && Parse(net, last).Ok? && Print(Parse(net, last).value) !in xs
    ensures FaithfulForm(net, rest + [last], Insert(xs, Print(Parse(net, last).value)))
  {
    var added := Print(Parse(net, last).value);
    InsertKeepsSorted(xs, added);
    forall x ensures x in Insert(xs, added) <==> PrintedFrom(net, rest + [last], x) {
      OneMorePrinted(net, rest, last, x);
    }
    forall i | 0 <= i < |rest| + 1 ensures Parse(net, (rest + [last])[i]).Ok? {
      if i < |rest| {
        assert (rest + [last])[i] == rest[i];
      }
    }
  }

  lemma NormalizeOneMore(net: OriginParser, rest: seq<string>, last: string)
    requires NormalizeEach(net, rest + [last]).Ok?
    ensures NormalizeEach(net, rest).Ok? && Parse(net, last).Ok?
    ensures Print(Parse(net, last).value) !in NormalizeEach(net, rest).value
    ensures NormalizeEach(net, rest + [last]).value
         == Insert(NormalizeEach(net, rest).value, Print(Parse(net, last).value))
  {
    assert (rest + [last])[..|rest|] == rest && (rest + [last])[|rest|] == last;
  }

  lemma NothingIsFaithful(net: OriginParser)
    ensures NormalizeEach(net, []) == Ok([]) && FaithfulForm(net, [], [])
  {}

  /** A normal form stands for exactly the capabilities that were given. */
  lemma {:induction false} NormalFormIsFaithful(net: OriginParser, raw: seq<string>)
    requires NormalizeEach(net, raw).Ok?
    ensures FaithfulForm(net, raw, NormalizeEach(net, raw).value)
  {
    if raw == [] {
      NothingIsFaithful(net);
    } else {
      var rest, last := raw[..|raw| - 1], raw[|raw| - 1];
      FrontAndLast(raw);
      NormalizeOneMore(net, rest, last);
      NormalFormIsFaithful(net, rest);
      FaithfulStep(net, rest, last, NormalizeEach(net, rest).value);
    }
  }

  lemma OneMorePrinted(net: OriginParser, rest: seq<string>, last: string, x: string)
    requires Parse(net, last).Ok?
    ensures PrintedFrom(net, rest + [last], x) <==> PrintedFrom(net, rest, x) || x == Print(Parse(net, last).value)
  {
    var raw := rest + [last];
    assert raw[|rest|] == last;
    if i :| 0 <= i < |rest| && Parse(net, rest[i]).Ok? && Print(Parse(net, rest[i]).value) == x {
      assert raw[i] == rest[i];
    }
  }

  lemma {:induction false} NormalizingCanonical(net: OriginParser, xs: seq<string>)
    requires Sorted(xs)
    requires forall i :: 0 <= i < |xs| ==> Parse(net, xs[i]).Ok? && Print(Parse(net, xs[i]).value) == xs[i]
    ensures NormalizeEach(net, xs) == Ok(InsertAll(xs))
  {
    if xs != [] {
      var n := |xs| - 1;
      NormalizingCanonical(net, xs[..n]);
      InsertAllSorts(xs[..n]);
      if xs[n] in xs[..n] {
        var i :| 0 <= i < n && xs[..n][i] == xs[n];
        LessIsTotal(xs[i], xs[n]);
      }
    }
  }

  /** Normalising a normal form changes nothing. */
  lemma NormalizeIsIdempotent(net: OriginParser, raw: seq<string>)
    requires StableOrigins(net) && Normalize(net, raw).Ok?
    ensures Normalize(net, Normalize(net, raw).value) == Normalize(net, raw)
  {
    var xs := Normalize(net, raw).value;
    NormalFormIsFaithful(net, raw);
    forall i | 0 <= i < |xs| ensures Parse(net, xs[i]).Ok? && Print(Parse(net, xs[i]).value) == xs[i] {
      assert xs[i] in xs && PrintedFrom(net, raw, xs[i]);
      var k :| 0 <= k < |raw| && Parse(net, raw[k]).Ok? && Print(Parse(net, raw[k]).value) == xs[i];
      ParsedIsCanonical(net, raw[k]);
      PrintedParsesBack(net, Parse(net, raw[k]).value);
    }
    NormalizingCanonical(net, xs);
    SortingSorted(xs);
  }

  /** The normal form depends only on which capabilities are named, not on order or spelling. */
  lemma NormalFormIsCanonical(net: OriginParser, a: seq<string>, b: seq<string>)
    requires Normalize(net, a).Ok? && Normalize(net, b).Ok?
    requires forall x :: PrintedFrom(net, a, x) <==> PrintedFrom(net, b, x)
    ensures Normalize(net, a) == Normalize(net, b)
  {
    NormalFormIsFaithful(net, a);
    NormalFormIsFaithful(net, b);
    SortedIsUnique(Normalize(net, a).value, Normalize(net, b).value);
  }

  // ----- may the plugin run? -----

  function NotIn(xs: seq<string>, granted: seq<string>): seq<string> {
    if xs == [] then []
    else (if xs[0] in granted then [] else [xs[0]]) + NotIn(xs[1..], granted)
  }

  function AddedCapabilities(net: OriginParser, granted: seq<string>, requested: seq<string>): Result<seq<string>> {
    var g := Normalize(net, granted);
    if g.Err? then g
    else
      var r := Normalize(net, requested);
      if r.Err? then r else Ok(NotIn(r.value, g.value))
  }

  datatype Approval = Approved | Pending | EscalationBlocked | RevokedApproval

  datatype Binding = Binding(
    pluginId: string, pluginVersion: string, runtime: nat,
    manifestSha256: string, packageSha256: string, sourceSha256: string,
    resolvedCommit: Option<string>, capabilities: seq<string>)

  datatype Lock = Lock(
    pluginId: string, pluginVersion: string, runtime: nat,
    manifestSha256: string, packageSha256: string, sourceSha256: Option<string>,
    resolvedCommit: Option<string>, approval: Approval)

  datatype Grant = Grant(
    pluginId: string, pluginVersion: string, runtime: nat,
    manifestSha256: string, capabilities: seq<string>, revokedAtMillis: Option<nat>)

  datatype Evaluation =
    | Allowed
    | ApprovalRequired(added: seq<string>)
    | BindingChanged
    | Revoked

  predicate LowerHex(text: string) {
    forall i :: 0 <= i < |text| ==> '0' <= text[i] <= '9' || 'a' <= text[i] <= 'f'
  }

  predicate ValidBinding(net: OriginParser, b: Binding) {
    && ValidId(b.pluginId) && Trim(b.pluginVersion) != ""
    && |b.manifestSha256| == 64 && LowerHex(b.manifestSha256)
    && |b.packageSha256| == 64 && LowerHex(b.packageSha256)
    && |b.sourceSha256| == 64 && LowerHex(b.sourceSha256)
    && (b.resolvedCommit.Some? ==> |b.resolvedCommit.value| == 40 && LowerHex(b.resolvedCommit.value))
    && Normalize(net, b.capabilities).Ok?
  }

  predicate GrantMatches(g: Grant, b: Binding) {
    g.pluginId == b.pluginId && g.pluginVersion == b.pluginVersion
    && g.runtime == b.runtime && g.manifestSha256 == b.manifestSha256
  }

  predicate LockMatches(l: Lock, b: Binding) {
    l.pluginId == b.pluginId && l.pluginVersion == b.pluginVersion && l.runtime == b.runtime
    && l.manifestSha256 == b.manifestSha256 && l.packageSha256 == b.packageSha256
    && l.sourceSha256 == Some(b.sourceSha256) && l.resolvedCommit == b.resolvedCommit
  }

  /** `None` stands for the error results: an invalid binding or a grant that does not normalise. */
  function EvaluateGrant(net: OriginParser, g: Grant, b: Binding): Option<Evaluation> {
    if !ValidBinding(net, b) then None
    else if g.revokedAtMillis.Some? then Some(Revoked)
    else if !GrantMatches(g, b) then Some(BindingChanged)
    else
      var added := AddedCapabilities(net, g.capabilities, b.capabilities);
      if added.Err? then None
      else if added.value == [] then Some(Allowed) else Some(ApprovalRequired(added.value))
  }

  function EvaluateSecurityBinding(net: OriginParser, l: Lock, g: Grant, b: Binding): Option<Evaluation> {
    if !ValidBinding(net, b) then None
    else if !LockMatches(l, b) then Some(BindingChanged)
    else if l.approval.RevokedApproval? then Some(Revoked)
    else if l.approval.Pending? || l.approval.EscalationBlocked? then
      var added := AddedCapabilities(net, g.capabilities, b.capabilities);
      if added.Err? then None else Some(ApprovalRequired(added.value))
    else EvaluateGrant(net, g, b)
  }

  lemma {:induction false} NotInIsEmptyForSubsets(xs: seq<string>, granted: seq<string>)
    ensures NotIn(xs, granted) == [] <==> forall x :: x in xs ==> x in granted
  {
    if xs != [] {
      NotInIsEmptyForSubsets(xs[1..], granted);
      assert forall x :: x in xs <==> x == xs[0] || x in xs[1..];
    }
  }

  /** The capability is one that some entry of the list names. */
  ghost predicate Names(net: OriginParser, raw: seq<string>, c: Capability) {
    exists i :: 0 <= i < |raw| && Parse(net, raw[i]) == Ok(c)
  }

  lemma NamesByText(net: OriginParser, raw: seq<string>, c: Capability)
    requires StableOrigins(net) && Canonical(net, c)
    ensures Names(net, raw, c) <==> PrintedFrom(net, raw, Print(c))
  {
    PrintedParsesBack(net, c);
    if Names(net, raw, c) {
      var i :| 0 <= i < |raw| && Parse(net, raw[i]) == Ok(c);
      assert Parse(net, raw[i]).Ok? && Print(Parse(net, raw[i]).value) == Print(c);
    }
    if PrintedFrom(net, raw, Print(c)) {
      var i :| 0 <= i < |raw| && Parse(net, raw[i]).Ok? && Print(Parse(net, raw[i]).value) == Print(c);
      ParsedIsCanonical(net, raw[i]);
      PrintedParsesBack(net, Parse(net, raw[i]).value);
    }
  }

  /** Nothing is added exactly when every requested capability is granted, however either is spelt. */
  lemma NothingAddedMeansGranted(net: OriginParser, granted: seq<string>, requested: seq<string>)
    requires StableOrigins(net) && Normalize(net, granted).Ok? && Normalize(net, requested).Ok?
    ensures AddedCapabilities(net, granted, requested) == Ok([])
       <==> forall c :: Names(net, requested, c) ==> Names(net, granted, c)
  {
    var g, r := Normalize(net, granted).value, Normalize(net, requested).value;
    NormalFormIsFaithful(net, granted);
    NormalFormIsFaithful(net, requested);
    NotInIsEmptyForSubsets(r, g);
    if forall x :: x in r ==> x in g {
      forall c | Names(net, requested, c) ensures Names(net, granted, c) {
        NamedIsCanonical(net, requested, c);
        NamesByText(net, requested, c);
        NamesByText(net, granted, c);
        assert Print(c) in r;
      }
    }
    if forall c :: Names(net, requested, c) ==> Names(net, granted, c) {
      forall x | x in r ensures x in g {
        assert PrintedFrom(net, requested, x);
        var i :| 0 <= i < |requested| && Parse(net, requested[i]).Ok? && Print(Parse(net, requested[i]).value) == x;
        var c := Parse(net, requested[i]).value;
        assert Names(net, requested, c);
        NamedIsCanonical(net, requested, c);
        NamesByText(net, granted, c);
      }
    }
  }

  lemma NamedIsCanonical(net: OriginParser, raw: seq<string>, c: Capability)
    requires StableOrigins(net) && Names(net, raw, c)
    ensures Canonical(net, c)
  {
    var i :| 0 <= i < |raw| && Parse(net, raw[i]) == Ok(c);
    ParsedIsCanonical(net, raw[i]);
  }

  /** A plugin is allowed exactly when its binding is valid and unchanged, the lock is approved,
      the grant is for it and not revoked, and every capability it requests is granted. */
  lemma AllowedExactly(net: OriginParser, l: Lock, g: Grant, b: Binding)
    requires StableOrigins(net)
    ensures EvaluateSecurityBinding(net, l, g, b) == Some(Allowed)
       <==> (&& ValidBinding(net, b) && LockMatches(l, b) && GrantMatches(g, b)
             && l.approval.Approved? && g.revokedAtMillis.None?
             && Normalize(net, g.capabilities).Ok?
             && forall c :: Names(net, b.capabilities, c) ==> Names(net, g.capabilities, c))
  {
    if ValidBinding(net, b) && Normalize(net, g.capabilities).Ok? {
      NothingAddedMeansGranted(net, g.capabilities, b.capabilities);
    }
  }
}
