/** The graphics commands sent to the outer terminal, and what that terminal holds after them.
    The meaning of the commands is the one the kitty graphics protocol gives them in its sections
    on transmitting, displaying and deleting images. */
module KittyHost {
  import opened Machine
  import opened KittyClipping

  const CHUNK_BYTES := 3072

  type PlacementKey = (nat, nat)

  /** One escape sequence of the outer command stream. A `Transmit` or `Continue` that announces
      more data leaves the transfer open. */
  datatype Command =
    | DeleteImage(id: nat)
    | DeletePlacement(id: nat, placementId: nat)
    | Transmit(id: nat, formatCode: U32, width: U32, height: U32, chunk: seq<Byte>, more: bool)
    | Continue(chunk: seq<Byte>, more: bool)
    | Display(id: nat, placementId: nat, clipped: Clipped, z: I32)

  datatype HostImage = HostImage(formatCode: U32, width: U32, height: U32, data: seq<Byte>)

  datatype Shown = Shown(clipped: Clipped, z: I32)

  datatype Transfer = Transfer(id: nat, image: HostImage)

  datatype Host = Host(
    images: map<nat, HostImage>,
    placements: map<PlacementKey, Shown>,
    transfer: Option<Transfer>)

  const EMPTY_HOST := Host(map[], map[], None)

  function WithoutImage<V>(placements: map<PlacementKey, V>, id: nat): map<PlacementKey, V> {
    map k | k in placements && k.0 != id :: placements[k]
  }

  // Storing an image under an id drops whatever was placed under that id before.
  function Receive(host: Host, id: nat, image: HostImage, more: bool): Host {
    if more then
      host.(transfer := Some(Transfer(id, image)))
    else
      Host(host.images[id := image], WithoutImage(host.placements, id), None)
  }

  function Apply(host: Host, command: Command): Host {
    match command
    case DeleteImage(id) =>
      host.(images := host.images - {id}, placements := WithoutImage(host.placements, id))
    case DeletePlacement(id, placementId) =>
      host.(placements := host.placements - {(id, placementId)})
    case Transmit(id, formatCode, width, height, chunk, more) =>
      Receive(host, id, HostImage(formatCode, width, height, chunk), more)
    case Continue(chunk, more) =>
      if host.transfer.None? then
        host
      else
        var t := host.transfer.value;
        Receive(host, t.id, t.image.(data := t.image.data + chunk), more)
    case Display(id, placementId, clipped, z) =>
      if id in host.images then
        host.(placements := host.placements[(id, placementId) := Shown(clipped, z)])
      else
        host
  }

  /** The command does what it says at this moment: nothing is deleted that is not held, nothing
      is displayed without its image, nothing is uploaded over an id already held, and an open
      transfer is only ever continued. */
  predicate Effective(host: Host, command: Command) {
    match command
    case DeleteImage(id) => host.transfer.None? && id in host.images
    case DeletePlacement(id, placementId) => host.transfer.None? && (id, placementId) in host.placements
    case Transmit(id, _, _, _, _, _) => host.transfer.None? && id !in host.images
    case Continue(_, _) => host.transfer.Some?
    case Display(id, _, _, _) => host.transfer.None? && id in host.images
  }

  function Run(host: Host, commands: seq<Command>): Host
    decreases commands
  {
    if commands == [] then host else Run(Apply(host, commands[0]), commands[1..])
  }

  predicate AllEffective(host: Host, commands: seq<Command>)
    decreases commands
  {
    commands == [] || (Effective(host, commands[0]) && AllEffective(Apply(host, commands[0]), commands[1..]))
  }

  lemma {:induction false} RunAppend(host: Host, a: seq<Command>, b: seq<Command>)
    ensures Run(host, a + b) == Run(Run(host, a), b)
    ensures AllEffective(host, a + b) == (AllEffective(host, a) && AllEffective(Run(host, a), b))
    decreases a
  {
    if a == [] {
      assert a + b == b;
    } else {
      assert (a + b)[0] == a[0] && (a + b)[1..] == a[1..] + b;
      RunAppend(Apply(host, a[0]), a[1..], b);
    }
  }

  lemma RunOne(host: Host, command: Command)
    ensures Run(host, [command]) == Apply(host, command)
    ensures AllEffective(host, [command]) == Effective(host, command)
  {
    assert Run(Apply(host, command), []) == Apply(host, command);
  }

  // ----- uploading in chunks -----

  function ContinueCommands(data: seq<Byte>): seq<Command> {
    if data == [] then
      []
    else
      var n := Min(|data|, CHUNK_BYTES);
      [Continue(data[..n], n < |data|)] + ContinueCommands(data[n..])
  }

  function UploadCommands(id: nat, formatCode: U32, width: U32, height: U32, data: seq<Byte>): seq<Command> {
    if data == [] then
      []
    else
      var n := Min(|data|, CHUNK_BYTES);
      [Transmit(id, formatCode, width, height, data[..n], n < |data|)] + ContinueCommands(data[n..])
  }

  method EncodeKittyData(id: nat, formatCode: U32, width: U32, height: U32, data: seq<Byte>)
    returns (out: seq<Command>)
    ensures out == UploadCommands(id, formatCode, width, height, data)
  {
    if data == [] {
      return [];
    }
    var at := Min(|data|, CHUNK_BYTES);
    out := [Transmit(id, formatCode, width, height, data[..at], at < |data|)];
    while at < |data|
      invariant 0 <= at <= |data|
      invariant out + ContinueCommands(data[at..]) == UploadCommands(id, formatCode, width, height, data)
    {
      var n := Min(|data| - at, CHUNK_BYTES);
      assert data[at..][..n] == data[at..at + n] && data[at..][n..] == data[at + n..];
      out := out + [Continue(data[at..at + n], at + n < |data|)];
      at := at + n;
    }
  }

  lemma {:induction false} ContinuationCompletes(host: Host, data: seq<Byte>)
    requires host.transfer.Some? && data != []
    requires host.transfer.value.id !in host.images
    requires forall k :: k in host.placements ==> k.0 != host.transfer.value.id
    ensures var t := host.transfer.value;
      && Run(host, ContinueCommands(data))
         == host.(images := host.images[t.id := t.image.(data := t.image.data + data)], transfer := None)
      && AllEffective(host, ContinueCommands(data))
    decreases |data|
  {
    var t := host.transfer.value;
    var n := Min(|data|, CHUNK_BYTES);
    var next := Apply(host, Continue(data[..n], n < |data|));
    assert WithoutImage(host.placements, t.id) == host.placements;
    if n == |data| {
      assert data[..n] == data && data[n..] == [];
    } else {
      ContinuationCompletes(next, data[n..]);
      assert t.image.data + data[..n] + data[n..] == t.image.data + data;
    }
  }

  /** Sending an image chunk by chunk leaves the terminal holding exactly that image, every byte
      in place, and nothing else changed. */
  lemma UploadStoresImage(host: Host, id: nat, formatCode: U32, width: U32, height: U32, data: seq<Byte>)
    requires host.transfer.None? && id !in host.images && data != []
    requires forall k :: k in host.placements ==> k.0 != id
    ensures var commands := UploadCommands(id, formatCode, width, height, data);
      && Run(host, commands) == host.(images := host.images[id := HostImage(formatCode, width, height, data)])
      && AllEffective(host, commands)
  {
    var n := Min(|data|, CHUNK_BYTES);
    var next := Apply(host, Transmit(id, formatCode, width, height, data[..n], n < |data|));
    assert WithoutImage(host.placements, id) == host.placements;
    if n == |data| {
      assert data[..n] == data && data[n..] == [];
    } else {
      ContinuationCompletes(next, data[n..]);
      assert data[..n] + data[n..] == data;
    }
  }

  /** Length of a chunk in base64. */
  function EncodedLength(bytes: nat): nat {
    4 * ((bytes + 2) / 3)
  }

  predicate ChunkFits(chunk: seq<Byte>, more: bool) {
    chunk != [] && EncodedLength(|chunk|) <= 4096 && (more ==> |chunk| % 3 == 0 && EncodedLength(|chunk|) == 4096)
  }

  lemma {:induction false} ContinuationChunksFit(data: seq<Byte>)
    ensures forall i :: 0 <= i < |ContinueCommands(data)| ==>
      var c := ContinueCommands(data)[i];
      c.Continue? && ChunkFits(c.chunk, c.more) && (c.more <==> i + 1 < |ContinueCommands(data)|)
    decreases |data|
  {
    if data != [] {
      var n := Min(|data|, CHUNK_BYTES);
      ContinuationChunksFit(data[n..]);
      assert ContinueCommands(data[n..]) == [] <==> n == |data|;
    }
  }

  /** As the protocol asks: no chunk is longer than 4096 characters in base64, only the last may be
      shorter or need padding, and every command but the last announces more. */
  lemma ChunksFitProtocol(id: nat, formatCode: U32, width: U32, height: U32, data: seq<Byte>)
    ensures var commands := UploadCommands(id, formatCode, width, height, data);
      forall i :: 0 <= i < |commands| ==>
        var c := commands[i];
        && (if i == 0 then c.Transmit? else c.Continue?)
        && ChunkFits(c.chunk, c.more) && (c.more <==> i + 1 < |commands|)
  {
    if data != [] {
      var n := Min(|data|, CHUNK_BYTES);
      ContinuationChunksFit(data[n..]);
      assert ContinueCommands(data[n..]) == [] <==> n == |data|;
    }
  }

  /** The protocol's codes for raw pixels are their bits. */
  lemma FormatCodesAreBits()
    ensures FormatCode(Rgb) == 3 * 8 && FormatCode(Rgba) == 4 * 8 && FormatCode(Png) == 100
  {}
}
