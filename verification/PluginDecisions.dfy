/** Which decision a plugin's binding gets, which capabilities it still lacks, and how parsing and
    normalising fail. */
module PluginDecisions {
  import opened Machine
  import opened SortedText
  import opened PluginCapabilities

  // ----- what is still missing -----

  lemma {:induction false} NotInFilters(xs: seq<string>, granted: seq<string>)
    requires Sorted(xs)
    ensures Sorted(NotIn(xs, granted))
    ensures forall x :: x in NotIn(xs, granted) <==> x in xs && x !in granted
  {
    if xs != [] {
      var rest := xs[1..];
      assert Sorted(rest);
      NotInFilters(rest, granted);
      assert forall x :: x in xs <==> x == xs[0] || x in rest;
      if xs[0] !in granted {
        HeadBeforeRest(xs, NotIn(rest, granted));
      }
    }
  }

  lemma HeadBeforeRest(xs: seq<string>, part: seq<string>)
    requires xs != [] && Sorted(xs) && Sorted(part) && forall x :: x in part ==> x in xs[1..]
    ensures Sorted([xs[0]] + part)
  {
    var all := [xs[0]] + part;
    forall i, j | 0 <= i < j < |all| ensures Less(all[i], all[j]) {
      if i == 0 {
        assert all[j] == part[j - 1] && part[j - 1] in xs[1..];
        var k :| 0 <= k < |xs| - 1 && xs[1..][k] == part[j - 1];
        assert xs[k + 1] == part[j - 1];
      } else {
        assert all[i] == part[i - 1] && all[j] == part[j - 1];
      }
    }
  }

  /** The printed capabilities that are requested and not granted, each once and in order. */
  ghost predicate Missing(net: OriginParser, granted: seq<string>, requested: seq<string>, added: seq<string>) {
    Sorted(added) && forall x :: x in added <==> PrintedFrom(net, requested, x) && !PrintedFrom(net, granted, x)
  }

  lemma AddedAreMissing(net: OriginParser, granted: seq<string>, requested: seq<string>)
    requires Normalize(net, granted).Ok? && Normalize(net, requested).Ok?
    ensures AddedCapabilities(net, granted, requested).Ok?
    ensures Missing(net, granted, requested, AddedCapabilities(net, granted, requested).value)
  {
    NormalFormIsFaithful(net, granted);
    NormalFormIsFaithful(net, requested);
    NotInFilters(Normalize(net, requested).value, Normalize(net, granted).value);
  }

  // ----- the decision -----

  /** The lock and the grant as they would be for this very binding. */
  predicate LockIsFor(l: Lock, b: Binding) {
    l == Lock(b.pluginId, b.pluginVersion, b.runtime, b.manifestSha256, b.packageSha256, Some(b.sourceSha256),
              b.resolvedCommit, l.approval)
  }

  predicate GrantIsFor(g: Grant, b: Binding) {
    g == Grant(b.pluginId, b.pluginVersion, b.runtime, b.manifestSha256, g.capabilities, g.revokedAtMillis)
  }

  /** Every decision, exactly: an invalid binding is an error before anything else; then a lock that is
      for something else, a revoked lock, a lock that awaits approval, a revoked grant, a grant that is
      for something else, and missing capabilities each decide in this order. */
  lemma DecisionExactly(net: OriginParser, l: Lock, g: Grant, b: Binding)
    ensures var r := EvaluateSecurityBinding(net, l, g, b);
      var comparable := Normalize(net, g.capabilities).Ok?;
      var waiting := l.approval.Pending? || l.approval.EscalationBlocked?;
      if !ValidBinding(net, b) then r == None
      else if !LockIsFor(l, b) then r == Some(BindingChanged)
      else if l.approval.RevokedApproval? then r == Some(Revoked)
      else if l.approval.Approved? && g.revokedAtMillis.Some? then r == Some(Revoked)
      else if l.approval.Approved? && !GrantIsFor(g, b) then r == Some(BindingChanged)
      else if !comparable then r == None
      else r.Some? && match r.value
        case ApprovalRequired(added) => (waiting || added != []) && Missing(net, g.capabilities, b.capabilities, added)
        case Allowed => !waiting && Missing(net, g.capabilities, b.capabilities, [])
        case _ => false
  {
    if ValidBinding(net, b) && Normalize(net, g.capabilities).Ok? {
      AddedAreMissing(net, g.capabilities, b.capabilities);
    }
  }

  /** The grant and the lock entry the source makes for a binding. */
  function NewGrant(net: OriginParser, b: Binding): Option<Grant> {
    if !ValidBinding(net, b) then None
    else Some(Grant(b.pluginId, b.pluginVersion, b.runtime, b.manifestSha256, Normalize(net, b.capabilities).value, None))
  }

  function NewLock(net: OriginParser, b: Binding, approval: Approval): Option<Lock> {
    if !ValidBinding(net, b) then None
    else Some(Lock(b.pluginId, b.pluginVersion, b.runtime, b.manifestSha256, b.packageSha256, Some(b.sourceSha256),
                   b.resolvedCommit, approval))
  }

  /** Approving a binding allows it: lock and grant made for it are found to match it, whatever order
      and spelling its capabilities have. */
  lemma ApprovedBindingIsAllowed(net: OriginParser, b: Binding)
    requires StableOrigins(net) && ValidBinding(net, b)
    ensures NewGrant(net, b).Some? && NewLock(net, b, Approved).Some?
    ensures EvaluateSecurityBinding(net, NewLock(net, b, Approved).value, NewGrant(net, b).value, b) == Some(Allowed)
  {
    NormalizeIsIdempotent(net, b.capabilities);
    NotInIsEmptyForSubsets(Normalize(net, b.capabilities).value, Normalize(net, b.capabilities).value);
  }

  // ----- how normalising fails -----

  /** The first entries all parse to different capabilities. */
  ghost predicate GoodUpTo(net: OriginParser, raw: seq<string>, n: nat)
    requires n <= |raw|
  {
    && (forall i :: 0 <= i < n ==> Parse(net, raw[i]).Ok?)
    && forall i, j :: 0 <= i < j < n ==> Print(Parse(net, raw[i]).value) != Print(Parse(net, raw[j]).value)
  }

  /** The entry at `n` does not parse, or repeats an earlier one. */
  ghost predicate FailsAt(net: OriginParser, raw: seq<string>, n: nat, error: Error)
    requires n < |raw| && GoodUpTo(net, raw, n)
  {
    var parsed := Parse(net, raw[n]);
    if parsed.Err? then error == parsed.error
    else error == Duplicate(Print(parsed.value)) && exists i :: 0 <= i < n && Repeats(net, raw, i, n)
  }

  predicate Repeats(net: OriginParser, raw: seq<string>, i: nat, n: nat)
    requires i < |raw| && n < |raw|
  {
    Parse(net, raw[i]).Ok? && Parse(net, raw[n]).Ok? && Print(Parse(net, raw[i]).value) == Print(Parse(net, raw[n]).value)
  }

  /** Fails at some entry, with every earlier one good. */
  ghost predicate FailsSomewhere(net: OriginParser, raw: seq<string>, error: Error) {
    exists n: nat :: n < |raw| && GoodUpTo(net, raw, n) && FailsAt(net, raw, n, error)
  }

  ghost predicate DecidedByEntries(net: OriginParser, raw: seq<string>) {
    if NormalizeEach(net, raw).Ok? then GoodUpTo(net, raw, |raw|)
    else FailsSomewhere(net, raw, NormalizeEach(net, raw).error)
  }

  lemma {:induction false} NormalizesToFirstFailure(net: OriginParser, raw: seq<string>)
    ensures DecidedByEntries(net, raw)
  {
    if raw == [] {
      NoEntriesAreGood(net);
    } else {
      FrontAndLast(raw);
      NormalizesToFirstFailure(net, raw[..|raw| - 1]);
      OneMoreEntry(net, raw[..|raw| - 1], raw[|raw| - 1]);
    }
  }

  lemma NoEntriesAreGood(net: OriginParser)
    ensures DecidedByEntries(net, [])
  {
    assert NormalizeEach(net, []) == Ok([]);
  }

  lemma OneMoreEntry(net: OriginParser, rest: seq<string>, last: string)
    requires DecidedByEntries(net, rest)
    ensures DecidedByEntries(net, rest + [last])
  {
    NormalizeStep(net, rest, last);
    if NormalizeEach(net, rest).Err? {
      SameFailure(net, rest, last, NormalizeEach(net, rest).error);
    } else {
      LastDecides(net, rest, last);
    }
  }

  lemma NormalizeStep(net: OriginParser, rest: seq<string>, last: string)
    ensures NormalizeEach(net, rest + [last])
         == var before, parsed := NormalizeEach(net, rest), Parse(net, last);
            if before.Err? then before
            else if parsed.Err? then Err(parsed.error)
            else if Print(parsed.value) in before.value then Err(Duplicate(Print(parsed.value)))
            else Ok(Insert(before.value, Print(parsed.value)))
  {
    assert (rest + [last])[..|rest|] == rest && (rest + [last])[|rest|] == last;
  }

  lemma SameFailure(net: OriginParser, rest: seq<string>, last: string, error: Error)
    requires FailsSomewhere(net, rest, error)
    ensures FailsSomewhere(net, rest + [last], error)
  {
    var n: nat :| n < |rest| && GoodUpTo(net, rest, n) && FailsAt(net, rest, n, error);
    SameEntries(net, rest, rest + [last], n, error);
    assert FailsAt(net, rest + [last], n, error);
  }

  lemma SameEntries(net: OriginParser, a: seq<string>, b: seq<string>, n: nat, error: Error)
    requires n < |a| && n < |b| && forall i :: 0 <= i <= n ==> a[i] == b[i]
    requires GoodUpTo(net, a, n) && FailsAt(net, a, n, error)
    ensures GoodUpTo(net, b, n) && FailsAt(net, b, n, error)
  {
    assert GoodUpTo(net, b, n);
    if Parse(net, a[n]).Ok? {
      var i :| 0 <= i < n && Repeats(net, a, i, n);
      assert Repeats(net, b, i, n);
    }
  }

  lemma LastDecides(net: OriginParser, rest: seq<string>, last: string)
    requires NormalizeEach(net, rest).Ok? && GoodUpTo(net, rest, |rest|)
    ensures var raw := rest + [last];
      && (NormalizeEach(net, raw).Ok? ==> GoodUpTo(net, raw, |raw|))
      && (NormalizeEach(net, raw).Err? ==> FailsSomewhere(net, raw, NormalizeEach(net, raw).error))
  {
    var raw, n := rest + [last], |rest|;
    NormalizeStep(net, rest, last);
    assert raw[n] == last && forall i :: 0 <= i < n ==> raw[i] == rest[i];
    assert GoodUpTo(net, raw, n);
    if Parse(net, last).Err? {
      assert FailsAt(net, raw, n, Parse(net, last).error);
    } else if Print(Parse(net, last).value) in NormalizeEach(net, rest).value {
      var i := RepeatedEntry(net, rest, Print(Parse(net, last).value));
      assert Repeats(net, raw, i, n);
      assert FailsAt(net, raw, n, Duplicate(Print(Parse(net, last).value)));
    } else {
      NewEntry(net, rest, Print(Parse(net, last).value));
    }
  }

  lemma RepeatedEntry(net: OriginParser, rest: seq<string>, text: string) returns (i: nat)
    requires NormalizeEach(net, rest).Ok? && text in NormalizeEach(net, rest).value
    ensures i < |rest| && Parse(net, rest[i]).Ok? && Print(Parse(net, rest[i]).value) == text
  {
    NormalFormIsFaithful(net, rest);
    assert PrintedFrom(net, rest, text);
    i :| i < |rest| && Parse(net, rest[i]).Ok? && Print(Parse(net, rest[i]).value) == text;
  }

  lemma NewEntry(net: OriginParser, rest: seq<string>, text: string)
    requires NormalizeEach(net, rest).Ok? && text !in NormalizeEach(net, rest).value
    ensures forall i :: 0 <= i < |rest| ==> Parse(net, rest[i]).Ok? && Print(Parse(net, rest[i]).value) != text
  {
    NormalFormIsFaithful(net, rest);
    forall i | 0 <= i < |rest| ensures Parse(net, rest[i]).Ok? && Print(Parse(net, rest[i]).value) != text {
      assert PrintedFrom(net, rest, Print(Parse(net, rest[i]).value));
    }
  }

  /** Normalising succeeds exactly for at most 64 entries that parse to different capabilities, and
      otherwise reports the first entry that does not fit. */
  lemma NormalizeFailsExactly(net: OriginParser, raw: seq<string>)
    ensures Normalize(net, raw).Ok? <==> |raw| <= 64 && GoodUpTo(net, raw, |raw|)
    ensures |raw| > 64 ==> Normalize(net, raw) == Err(TooMany)
    ensures |raw| <= 64 && Normalize(net, raw).Err? ==> FailsSomewhere(net, raw, Normalize(net, raw).error)
  {
    NormalizesToFirstFailure(net, raw);
  }

  // ----- how parsing fails -----

  const SCOPED_FAMILIES: set<string> :=
    {"workspace.files.read", "workspace.files.write", "process.spawn", "network", "secrets.read"}

  lemma {:induction false} IndexIsFirst(text: string, c: char)
    ensures IndexOf(text, c) < |text| ==> text[IndexOf(text, c)] == c && c !in text[..IndexOf(text, c)]
    ensures IndexOf(text, c) == |text| <==> c !in text
  {
    if text != "" && text[0] != c {
      IndexIsFirst(text[1..], c);
      var at := IndexOf(text[1..], c);
      assert forall x :: x in text <==> x == text[0] || x in text[1..];
      if at < |text| - 1 {
        assert text[..at + 1] == [text[0]] + text[1..][..at];
      }
    }
  }

  /** A text without a colon is a capability without a scope, the name of a family that lacks its
      scope, or unknown; nothing else. */
  lemma UnscopedTextMeans(net: OriginParser, raw: string)
    requires ':' !in raw
    ensures if exists c :: !Scoped(c) && FamilyText(c) == raw then Parse(net, raw).Ok? && Print(Parse(net, raw).value) == raw
            else Parse(net, raw) == Err(if raw in SCOPED_FAMILIES then MissingScope(raw) else Unknown(raw))
  {
    IndexIsFirst(raw, ':');
    if c :| !Scoped(c) && FamilyText(c) == raw {
      FixedParsesBack(c);
    }
    if ParseFixed(raw).Some? {
      FixedIsItsFamily(raw);
    }
  }

  /** A text with a colon needs a family that takes a scope before it, and that family's kind of scope
      behind it; the error names whichever is wrong. */
  lemma ScopedTextMeans(net: OriginParser, family: string, scope: string)
    requires ':' !in family
    ensures var r := Parse(net, family + [':'] + scope);
      && (family !in SCOPED_FAMILIES ==> r == Err(Unknown(family + [':'] + scope)))
      && (family == "workspace.files.read" ==>
            if scope == "changed" then r == Ok(WorkspaceFilesRead(Changed))
            else if scope == "worktree" then r == Ok(WorkspaceFilesRead(Worktree))
            else r == Err(InvalidWorkspaceScope(scope)))
      && (family == "workspace.files.write" ==>
            if scope == "changed" then r == Ok(WorkspaceFilesWrite(Changed))
            else if scope == "worktree" then r == Ok(WorkspaceFilesWrite(Worktree))
            else r == Err(InvalidWorkspaceScope(scope)))
      && (family == "network" ==>
            r == if net(scope).Some? then Ok(Network(net(scope).value)) else Err(InvalidNetworkOrigin(scope)))
      && (family == "secrets.read" ==>
            r == if ValidId(scope) then Ok(SecretsRead(scope)) else Err(InvalidNamedSecret(scope)))
      && (family == "process.spawn" ==>
            if r.Ok? then r.value.ProcessSpawn? && ParseProcessAllowlist(scope) == Ok(r.value.commands)
            else r == Err(InvalidProcessAllowlist(scope)))
  {
    var raw := family + [':'] + scope;
    IndexAfterPrefix(family, ':', scope);
    assert raw[|family|] == ':' && raw[..|family|] == family && raw[|family| + 1..] == scope;
    assert ':' in raw;
    FixedHasNoColon(raw);
    assert Parse(net, raw) == ParseScoped(net, raw, family, scope);
    ScopedParseMeans(net, raw, family, scope);
  }

  lemma ScopedParseMeans(net: OriginParser, raw: string, family: string, scope: string)
    ensures var r := ParseScoped(net, raw, family, scope);
      && (family !in SCOPED_FAMILIES ==> r == Err(Unknown(raw)))
      && (family == "workspace.files.read" ==>
            if scope == "changed" then r == Ok(WorkspaceFilesRead(Changed))
            else if scope == "worktree" then r == Ok(WorkspaceFilesRead(Worktree))
            else r == Err(InvalidWorkspaceScope(scope)))
      && (family == "workspace.files.write" ==>
            if scope == "changed" then r == Ok(WorkspaceFilesWrite(Changed))
            else if scope == "worktree" then r == Ok(WorkspaceFilesWrite(Worktree))
            else r == Err(InvalidWorkspaceScope(scope)))
      && (family == "network" ==>
            r == if net(scope).Some? then Ok(Network(net(scope).value)) else Err(InvalidNetworkOrigin(scope)))
      && (family == "secrets.read" ==>
            r == if ValidId(scope) then Ok(SecretsRead(scope)) else Err(InvalidNamedSecret(scope)))
      && (family == "process.spawn" ==>
            if r.Ok? then r.value.ProcessSpawn? && ParseProcessAllowlist(scope) == Ok(r.value.commands)
            else r == Err(InvalidProcessAllowlist(scope)))
  {}

  // ----- allow lists as they are written -----

  predicate Blank(text: string) {
    forall i :: 0 <= i < |text| ==> Space(text[i])
  }

  lemma {:induction false} TrimsStart(pad: string, text: string)
    requires Blank(pad) && (text == "" || !Space(text[0]))
    ensures TrimStart(pad + text) == text
  {
    if pad == "" {
      assert pad + text == text;
    } else {
      assert (pad + text)[1..] == pad[1..] + text;
      TrimsStart(pad[1..], text);
    }
  }

  lemma {:induction false} TrimsEnd(text: string, pad: string)
    requires Blank(pad) && (text == "" || !Space(text[|text| - 1]))
    ensures TrimEnd(text + pad) == text
  {
    if pad == "" {
      assert text + pad == text;
    } else {
      assert (text + pad)[..|text + pad| - 1] == text + pad[..|pad| - 1];
      TrimsEnd(text, pad[..|pad| - 1]);
    }
  }

  /** Spaces around a command do not belong to it. */
  lemma PaddingIsTrimmed(before: string, command: string, after: string)
    requires Blank(before) && Blank(after) && AllowedCommand(command)
    ensures Trim(before + command + after) == command
  {
    CommandIsTrimmed(command);
    assert !Space(command[0]) && !Space(command[|command| - 1]);
    assert before + command + after == before + (command + after) && (command + after)[0] == command[0];
    TrimsStart(before, command + after);
    TrimsEnd(command, after);
  }

  /** The parts of the text each mean one command. */
  ghost predicate Written(parts: seq<string>, commands: seq<string>) {
    && |parts| == |commands|
    && forall i :: 0 <= i < |parts| ==> ',' !in parts[i] && PaddedCommand(parts[i], commands[i])
  }

  ghost predicate PaddedCommand(part: string, command: string) {
    AllowedCommand(command)
    && exists before, after :: Blank(before) && Blank(after) && part == before + command + after
  }

  /** However the commands are spaced, ordered and repeated, a written allow list of at most sixteen
      entries parses to its commands, sorted and each once. */
  lemma WrittenAllowlistParses(parts: seq<string>, commands: seq<string>)
    requires 1 <= |parts| <= 16 && Written(parts, commands)
    ensures var r := ParseProcessAllowlist(Join(parts, ','));
      r.Ok? && Sorted(r.value) && forall x :: x in r.value <==> x in commands
  {
    SplitUndoesJoin(parts, ',');
    WrittenCommands(parts, commands);
    InsertAllSorts(commands);
  }

  lemma WrittenCommands(parts: seq<string>, commands: seq<string>)
    requires Written(parts, commands)
    ensures TrimEach(parts) == commands && forall i :: 0 <= i < |commands| ==> AllowedCommand(commands[i])
  {
    forall i | 0 <= i < |parts| ensures Trim(parts[i]) == commands[i] && AllowedCommand(commands[i]) {
      assert PaddedCommand(parts[i], commands[i]);
      var before, after :| Blank(before) && Blank(after) && parts[i] == before + commands[i] + after;
      PaddingIsTrimmed(before, commands[i], after);
    }
  }

  /** Longer lists, and lists with anything that is no command name, are refused. */
  lemma OtherAllowlistsAreRefused(parts: seq<string>)
    requires parts != [] && forall i :: 0 <= i < |parts| ==> ',' !in parts[i]
    requires |parts| > 16 || exists i :: 0 <= i < |parts| && !AllowedCommand(Trim(parts[i]))
    ensures ParseProcessAllowlist(Join(parts, ',')) == Err(InvalidProcessAllowlist(Join(parts, ',')))
  {
    SplitUndoesJoin(parts, ',');
  }

  /** A command name is 1 to 128 letters, digits and four marks, and no directory. */
  lemma CommandNamesExactly(text: string)
    ensures AllowedCommand(text)
       <==> && 1 <= |text| <= 128 && text != "." && text != ".."
            && forall i :: 0 <= i < |text| ==>
                 var c := text[i]; 'a' <= c <= 'z' || 'A' <= c <= 'Z' || '0' <= c <= '9' || c in "_-.+"
  {}

  /** Of the ASCII characters, exactly the blank and the five control characters from tab on are
      spaces. */
  lemma AsciiSpaces(c: char)
    requires c as int < 128
    ensures Space(c) <==> c as int == 0x20 || 0x09 <= c as int <= 0x0d
  {}

  // ----- well-formed bindings -----

  predicate LowerHexDigits(text: string, n: nat) {
    |text| == n && forall i :: 0 <= i < n ==> text[i] in "0123456789abcdef"
  }

  /** No decision is made about a binding without an id, a version, three digests of 64 lower-case hex
      digits, a commit of 40 if there is one, and capabilities that normalise; every other gets one
      unless the grant's capabilities do not normalise. */
  lemma DecidedBindingsAreWellFormed(net: OriginParser, l: Lock, g: Grant, b: Binding)
    ensures ValidBinding(net, b)
       <==> && 1 <= |b.pluginId| <= 128
            && (forall i :: 0 <= i < |b.pluginId| ==>
                  var c := b.pluginId[i]; 'a' <= c <= 'z' || 'A' <= c <= 'Z' || '0' <= c <= '9' || c in "_-.")
            && Trim(b.pluginVersion) != ""
            && LowerHexDigits(b.manifestSha256, 64) && LowerHexDigits(b.packageSha256, 64)
            && LowerHexDigits(b.sourceSha256, 64)
            && (b.resolvedCommit.Some? ==> LowerHexDigits(b.resolvedCommit.value, 40))
            && Normalize(net, b.capabilities).Ok?
    ensures EvaluateSecurityBinding(net, l, g, b).Some? ==> ValidBinding(net, b)
    ensures ValidBinding(net, b) && Normalize(net, g.capabilities).Ok? ==> EvaluateSecurityBinding(net, l, g, b).Some?
  {
    HexCharacters(b.manifestSha256);
    HexCharacters(b.packageSha256);
    HexCharacters(b.sourceSha256);
    if b.resolvedCommit.Some? {
      HexCharacters(b.resolvedCommit.value);
    }
    if ValidBinding(net, b) && Normalize(net, g.capabilities).Ok? {
      AddedAreMissing(net, g.capabilities, b.capabilities);
    }
  }

  lemma HexCharacters(text: string)
    ensures LowerHex(text) <==> forall i :: 0 <= i < |text| ==> text[i] in "0123456789abcdef"
  {
    forall i | 0 <= i < |text|
      ensures ('0' <= text[i] <= '9' || 'a' <= text[i] <= 'f') <==> text[i] in "0123456789abcdef"
    {
      HexCharacter(text[i]);
    }
  }

  lemma HexCharacter(c: char)
    ensures ('0' <= c <= '9' || 'a' <= c <= 'f') <==> c in "0123456789abcdef"
  {
    var digits := "0123456789abcdef";
    if '0' <= c <= '9' {
      assert digits[c as int - '0' as int] == c;
    } else if 'a' <= c <= 'f' {
      assert digits[c as int - 'a' as int + 10] == c;
    }
  }
}
