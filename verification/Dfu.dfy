// dfu.c: the USB Device Firmware Upgrade state machine.

module Dfu {
  import opened Platform

  /** USB_CONTROL_BUF_SIZE. */
  const BUFFER_SIZE := 256

  datatype DfuState = DfuIdle | DnloadSync | DnBusy | DnloadIdle | ManifestSync | Manifest | UploadIdle | DfuError

  datatype Status = OK | ErrVerify | ErrUnknown | ErrFirmware | ErrStalledPkt

  /** The completion callback left for the end of the current control transfer. */
  datatype Callback = None | ProgramBlock | DownloadComplete | ManifestRequest

  /** One call of the flash programming routine: whole half-words of a block. */
  datatype Call = Call(dest: int, data: seq<Byte>)

  /** The module's variables, with the blocks accepted and the program calls made since the download began. */
  datatype Device = Device(state: DfuState, status: Status, offset: nat, block: seq<Byte>, pending: Callback,
                           accepted: seq<seq<Byte>>, calls: seq<Call>)

  /** A class request; GETSTATUS carries what validate_application would say, UPLOAD and DNLOAD their wLength. */
  datatype Request =
    GetState | GetStatus(valid: bool) | ClrStatus | Dnload(data: seq<Byte>) | Abort | Upload(len: nat) | Other

  datatype Reply = Nothing | StateIs(state: DfuState) | StatusIs(status: Status, poll: nat, state: DfuState)
    | Slice(at: int, len: nat) | Stall

  const INITIAL := Device(DfuIdle, OK, 0, [], None, [], [])

  /** dfu_set_status. */
  function SetStatus(d: Device, status: Status): Device {
    if status == OK then d.(status := OK, state := if d.state == DfuError then DfuIdle else d.state)
    else d.(status := status, state := DfuError)
  }

  /** DFU_DNLOAD with data, by state. */
  function Download(d: Device, data: seq<Byte>): (Device, Reply) {
    match d.state
    case DfuIdle =>
      if data != [] then (d.(offset := 0, block := data, state := DnloadSync, accepted := [data], calls := []), Nothing)
      else (SetStatus(d, ErrStalledPkt), Stall)
    case DnloadIdle =>
      if data != [] then (d.(block := data, state := DnloadSync, accepted := d.accepted + [data]), Nothing)
      else (d.(pending := DownloadComplete), Nothing)
    case _ => (d, Nothing)
  }

  /** DFU_UPLOAD: the next slice of the firmware area of `max` bytes, cut off at its end. (The offset of an upload under
      way never exceeds `max`.) */
  function UploadSlice(app: int, max: nat, d: Device, len: nat): (Device, Reply) {
    if d.state != DfuIdle && d.state != UploadIdle then (d, Nothing)
    else
      var offset := if d.state == DfuIdle then 0 else d.offset;
      if offset + len > max then
        var rest: nat := if offset <= max then max - offset else 0;
        (d.(state := DfuIdle, offset := offset + rest), Slice(app + offset, rest))
      else (d.(state := UploadIdle, offset := offset + len), Slice(app + offset, len))
  }

  /** dfu_control_class_request. A new request drops a callback still pending. */
  function Control(app: int, max: nat, d0: Device, req: Request): (Device, Reply) {
    var d := d0.(pending := None);
    match req
    case GetState => (d, StateIs(d.state))
    case GetStatus(valid) =>
      var r := match d.state
        case DnloadSync => d.(state := DnBusy, pending := ProgramBlock)
        case ManifestSync => if valid then d.(state := Manifest, pending := ManifestRequest)
            else SetStatus(d, ErrFirmware)
        case _ => d;
      (r, StatusIs(r.status, if d.state == DnloadSync then 100 else 0, r.state))
    case ClrStatus => (SetStatus(d, OK), Nothing)
    case Dnload(data) => Download(d, data)
    case Abort =>
      var quits := d.state in {DfuIdle, DnloadSync, DnloadIdle, ManifestSync, UploadIdle};
      (if quits then d.(state := DfuIdle) else d, Nothing)
    case Upload(len) => UploadSlice(app, max, d, len)
    case Other => (SetStatus(d, ErrStalledPkt), Stall)
  }

  /** Whole half-words only: an odd last byte is not programmed. */
  function HalfWords(block: seq<Byte>): seq<Byte> {
    block[..|block| / 2 * 2]
  }

  /** The pending callback runs: `ok` is the result of programming, `manifests` whether a manifest callback is set. */
  function Complete(app: int, d0: Device, ok: bool, manifests: bool): Device {
    var d := d0.(pending := None);
    match d0.pending
    case None => d
    case ProgramBlock =>
      var e := d.(calls := d.calls + [Call(app + d.offset, HalfWords(d.block))]);
      if ok then e.(offset := e.offset + |e.block|, state := DnloadIdle) else SetStatus(e, ErrVerify)
    case DownloadComplete => d.(state := ManifestSync)
    case ManifestRequest => if manifests then d else SetStatus(d, ErrUnknown)
  }

  // ---------- invariants over all runs ----------

  datatype Event = Req(req: Request) | Done(ok: bool, manifests: bool)

  function Step(app: int, max: nat, d: Device, e: Event): Device {
    match e
    case Req(req) => Control(app, max, d, req).0
    case Done(ok, manifests) => Complete(app, d, ok, manifests)
  }

  function Run(app: int, max: nat, events: seq<Event>): Device {
    if events == [] then INITIAL else Step(app, max, Run(app, max, events[..|events| - 1]), events[|events| - 1])
  }

  function Total(blocks: seq<seq<Byte>>): nat {
    if blocks == [] then 0 else Total(blocks[..|blocks| - 1]) + |blocks[|blocks| - 1]|
  }

  /** The i-th program call is the i-th accepted block, at the application base plus everything accepted before it. */
  predicate CallIs(app: int, d: Device, i: nat)
    requires i < |d.calls| <= |d.accepted|
  {
    d.calls[i] == Call(app + Total(d.accepted[..i]), HalfWords(d.accepted[i]))
  }

  predicate Downloading(d: Device) {
    d.state in {DnloadSync, DnBusy, DnloadIdle, ManifestSync, Manifest}
  }

  /** Whether the last accepted block is still to be programmed. */
  predicate BlockDue(d: Device) {
    d.state == DnloadSync || d.state == DnBusy
  }

  predicate Inv(app: int, max: nat, d: Device) {
    && (d.state == DfuError <==> d.status != OK)
    && (d.pending == ProgramBlock ==> d.state == DnBusy)
    && (d.pending == DownloadComplete ==> d.state == DnloadIdle)
    && (d.pending == ManifestRequest ==> d.state == Manifest)
    && |d.calls| <= |d.accepted|
    && (forall i :: 0 <= i < |d.calls| ==> CallIs(app, d, i))
    && (Downloading(d) ==>
          && d.accepted != [] && d.block == d.accepted[|d.accepted| - 1]
          && |d.calls| == (if BlockDue(d) then |d.accepted| - 1 else |d.accepted|)
          && d.offset == Total(d.accepted[..|d.calls|]))
    && (d.state == UploadIdle ==> d.offset <= max)
  }

  /** Accepting a further block leaves what is known about the calls. */
  lemma CallsAfter(app: int, d: Device, r: Device)
    requires |d.calls| <= |d.accepted| && (forall i :: 0 <= i < |d.calls| ==> CallIs(app, d, i))
    requires r.calls == d.calls && d.accepted <= r.accepted
    ensures forall i :: 0 <= i < |r.calls| ==> CallIs(app, r, i)
    ensures r.accepted[..|d.calls|] == d.accepted[..|d.calls|]
  {
    forall i | 0 <= i < |r.calls|
      ensures CallIs(app, r, i)
    {
      assert CallIs(app, d, i);
      assert r.accepted[..i] == d.accepted[..i];
    }
  }

  lemma ControlKeepsInv(app: int, max: nat, d: Device, req: Request)
    requires Inv(app, max, d)
    ensures Inv(app, max, Control(app, max, d, req).0)
  {
    hide CallIs, Total, HalfWords;
    var r := Control(app, max, d, req).0;
    NothingAccepted();
    match req
    case Dnload(data) =>
      if d.state == DnloadIdle && data != [] {
        assert d.accepted <= r.accepted;
      }
      if !(d.state == DfuIdle && data != []) {
        CallsAfter(app, d, r);
      }
    case _ => CallsAfter(app, d, r);
  }

  lemma NothingAccepted()
    ensures Total([]) == 0 && forall b: seq<Byte> :: [b][..0] == []
  {
  }

  lemma CompleteKeepsInv(app: int, max: nat, d: Device, ok: bool, manifests: bool)
    requires Inv(app, max, d)
    ensures Inv(app, max, Complete(app, d, ok, manifests))
  {
    var r := Complete(app, d, ok, manifests);
    forall i | 0 <= i < |r.calls|
      ensures CallIs(app, r, i)
    {
      if i < |d.calls| {
        assert CallIs(app, d, i);
      }
    }
    if d.pending == ProgramBlock {
      var n := |d.accepted|;
      assert d.accepted[..n] == d.accepted && d.accepted[..n][..n - 1] == d.accepted[..n - 1];
    }
  }

  /** Every reachable state satisfies the invariant, whatever requests and completions the host causes in whatever
      order. */
  lemma {:induction false} RunKeepsInv(app: int, max: nat, events: seq<Event>)
    ensures Inv(app, max, Run(app, max, events))
    decreases |events|
  {
    if events != [] {
      var d, e := Run(app, max, events[..|events| - 1]), events[|events| - 1];
      RunKeepsInv(app, max, events[..|events| - 1]);
      match e
      case Req(req) => ControlKeepsInv(app, max, d, req);
      case Done(ok, manifests) => CompleteKeepsInv(app, max, d, ok, manifests);
    }
  }

  /** Manifestation is entered only from manifest-sync, by a status request that found a valid application. */
  lemma ManifestOnlyValidated(app: int, max: nat, events: seq<Event>, e: Event)
    requires Run(app, max, events + [e]).state == Manifest && Run(app, max, events).state != Manifest
    ensures e == Req(GetStatus(true)) && Run(app, max, events).state == ManifestSync
  {
    assert (events + [e])[..|events|] == events;
    RunKeepsInv(app, max, events);
  }

  function Concat(blocks: seq<seq<Byte>>): seq<Byte> {
    if blocks == [] then [] else Concat(blocks[..|blocks| - 1]) + blocks[|blocks| - 1]
  }

  /** What the calls wrote, one after the other. */
  function Written(calls: seq<Call>): seq<Byte> {
    if calls == [] then [] else Written(calls[..|calls| - 1]) + calls[|calls| - 1].data
  }

  lemma {:induction false} ConcatLength(blocks: seq<seq<Byte>>)
    ensures |Concat(blocks)| == Total(blocks)
  {
    if blocks != [] {
      ConcatLength(blocks[..|blocks| - 1]);
    }
  }

  predicate AllEven(blocks: seq<seq<Byte>>) {
    forall i :: 0 <= i < |blocks| ==> |blocks[i]| % 2 == 0
  }

  /** The calls of the first `n` blocks: never more bytes than the blocks, and exactly the blocks when all are even. */
  lemma {:induction false} WrittenIsConcat(app: int, d: Device, n: nat)
    requires n <= |d.calls| <= |d.accepted| && forall i :: 0 <= i < |d.calls| ==> CallIs(app, d, i)
    ensures |Written(d.calls[..n])| <= Total(d.accepted[..n])
    ensures AllEven(d.accepted[..n]) ==> Written(d.calls[..n]) == Concat(d.accepted[..n])
    ensures !AllEven(d.accepted[..n]) ==> |Written(d.calls[..n])| < Total(d.accepted[..n])
  {
    if n > 0 {
      WrittenIsConcat(app, d, n - 1);
      assert CallIs(app, d, n - 1);
      assert d.calls[..n][..n - 1] == d.calls[..n - 1] && d.accepted[..n][..n - 1] == d.accepted[..n - 1];
      assert AllEven(d.accepted[..n]) <==> AllEven(d.accepted[..n - 1]) && |d.accepted[n - 1]| % 2 == 0;
    }
  }

  /** After a download, in every run: what was programmed is the accepted blocks, one after the other and each once, the
      offset is their length, and the calls follow on from one another in flash, exactly if every block was even. */
  lemma DownloadWritten(app: int, max: nat, events: seq<Event>)
    requires Run(app, max, events).state in {DnloadIdle, ManifestSync, Manifest}
    ensures
      var d := Run(app, max, events);
      && |d.calls| == |d.accepted| && d.offset == |Concat(d.accepted)|
      && (Written(d.calls) == Concat(d.accepted) <==> AllEven(d.accepted))
      && (AllEven(d.accepted) ==> forall i :: 0 <= i < |d.calls| ==> d.calls[i].dest == app + |Written(d.calls[..i])|)
  {
    var d := Run(app, max, events);
    RunKeepsInv(app, max, events);
    var n := |d.calls|;
    WrittenIsConcat(app, d, n);
    ConcatLength(d.accepted);
    assert d.calls[..n] == d.calls && d.accepted[..n] == d.accepted;
    forall i | 0 <= i < n && AllEven(d.accepted)
      ensures d.calls[i].dest == app + |Written(d.calls[..i])|
    {
      WrittenIsConcat(app, d, i);
      ConcatLength(d.accepted[..i]);
      assert CallIs(app, d, i);
    }
  }

  // ---------- what the host sends ----------

  /** A device `d` after further events. */
  function Play(app: int, max: nat, d: Device, events: seq<Event>): Device {
    if events == [] then d else Step(app, max, Play(app, max, d, events[..|events| - 1]), events[|events| - 1])
  }

  lemma {:induction false} PlayMore(app: int, max: nat, d: Device, a: seq<Event>, b: seq<Event>)
    ensures Play(app, max, d, a + b) == Play(app, max, Play(app, max, d, a), b)
    decreases |b|
  {
    hide Step;
    if b == [] {
      assert a + b == a;
    } else {
      assert (a + b)[..|a + b| - 1] == a + b[..|b| - 1];
      PlayMore(app, max, d, a, b[..|b| - 1]);
    }
  }

  /** One block as a host sends it: the data, a status request, and the programming that follows it succeeds. */
  function BlockEvents(block: seq<Byte>, valid: bool, manifests: bool): seq<Event> {
    [Req(Dnload(block)), Req(GetStatus(valid)), Done(true, manifests)]
  }

  function BlocksEvents(blocks: seq<seq<Byte>>, valid: bool, manifests: bool): seq<Event> {
    if blocks == [] then []
    else BlocksEvents(blocks[..|blocks| - 1], valid, manifests) + BlockEvents(blocks[|blocks| - 1], valid, manifests)
  }

  /** A whole download: the blocks, then the empty one. */
  function DownloadEvents(blocks: seq<seq<Byte>>, valid: bool, manifests: bool): seq<Event> {
    BlocksEvents(blocks, valid, manifests) + [Req(Dnload([])), Done(true, manifests)]
  }

  lemma OneBlock(app: int, max: nat, d: Device, block: seq<Byte>, valid: bool, manifests: bool)
    requires (d.state == DfuIdle || d.state == DnloadIdle) && block != []
    ensures
      var r := Play(app, max, d, BlockEvents(block, valid, manifests));
      var (offset, calls) := if d.state == DfuIdle then (0, []) else (d.offset, d.calls);
      && r.state == DnloadIdle && r.status == d.status && r.offset == offset + |block|
      && r.calls == calls + [Call(app + offset, HalfWords(block))]
  {
    hide HalfWords;
    var d1 := Control(app, max, d, Dnload(block)).0;
    var d2 := Control(app, max, d1, GetStatus(valid)).0;
    var es := BlockEvents(block, valid, manifests);
    assert es[..2][..1][..0] == [] && es[..2][..1] == es[..1];
    assert Play(app, max, d, es[..1]) == d1;
    assert Play(app, max, d, es[..2]) == d2;
  }

  /** One call for each block, in order, each at the base plus everything before it. */
  predicate CallsAre(app: int, calls: seq<Call>, blocks: seq<seq<Byte>>) {
    && |calls| == |blocks|
    && forall i :: 0 <= i < |blocks| ==> calls[i] == Call(app + Total(blocks[..i]), HalfWords(blocks[i]))
  }

  lemma OneCallMore(app: int, calls: seq<Call>, blocks: seq<seq<Byte>>, last: seq<Byte>)
    requires CallsAre(app, calls, blocks)
    ensures CallsAre(app, calls + [Call(app + Total(blocks), HalfWords(last))], blocks + [last])
    ensures Total(blocks + [last]) == Total(blocks) + |last|
  {
    hide HalfWords;
    var more := blocks + [last];
    assert more[..|blocks|] == blocks;
    forall i | 0 <= i < |blocks|
      ensures more[..i] == blocks[..i]
    {
    }
  }

  lemma {:induction false} AllBlocks(app: int, max: nat, d: Device, blocks: seq<seq<Byte>>, valid: bool,
                                     manifests: bool)
    requires d.state == DfuIdle && blocks != [] && [] !in blocks
    ensures
      var r := Play(app, max, d, BlocksEvents(blocks, valid, manifests));
      && r.state == DnloadIdle && r.status == d.status && r.offset == Total(blocks) && CallsAre(app, r.calls, blocks)
    decreases |blocks|
  {
    hide Play, BlockEvents, Step, CallsAre;
    var n := |blocks| - 1;
    var before, last := blocks[..n], blocks[n];
    assert blocks == before + [last];
    var p := Play(app, max, d, BlocksEvents(before, valid, manifests));
    PlayMore(app, max, d, BlocksEvents(before, valid, manifests), BlockEvents(last, valid, manifests));
    assert last in blocks;
    if n == 0 {
      PlayNothing(app, max, d);
      NoCalls(app);
      OneCallMore(app, [], before, last);
    } else {
      AllBlocks(app, max, d, before, valid, manifests);
      OneCallMore(app, p.calls, before, last);
    }
    OneBlock(app, max, p, last, valid, manifests);
  }

  lemma NoCalls(app: int)
    ensures CallsAre(app, [], [])
  {
  }

  lemma PlayNothing(app: int, max: nat, d: Device)
    ensures Play(app, max, d, []) == d
  {
  }

  /** What the host sends is what is programmed: from dfuIDLE, any list of blocks, each followed by its status request
      and its programming, and then the end of the download, leave the device waiting to manifest, with one program call
      for each block, in order, each at the application base plus everything sent before it. The bytes written are
      exactly the host's, one block behind the other, if and only if every block is even. */
  lemma DownloadProgramsHost(app: int, max: nat, d: Device, blocks: seq<seq<Byte>>, valid: bool, manifests: bool)
    requires d.state == DfuIdle && blocks != [] && [] !in blocks
    ensures
      var r := Play(app, max, d, DownloadEvents(blocks, valid, manifests));
      && r.state == ManifestSync && r.status == d.status && |r.calls| == |blocks|
      && (forall i :: 0 <= i < |blocks| ==>
            r.calls[i].dest == app + |Concat(blocks[..i])| && r.calls[i].data == blocks[i][..|blocks[i]| / 2 * 2])
      && (Written(r.calls) == Concat(blocks) <==> forall b :: b in blocks ==> |b| % 2 == 0)
  {
    hide BlocksEvents, Step;
    var first, es := BlocksEvents(blocks, valid, manifests), DownloadEvents(blocks, valid, manifests);
    AllBlocks(app, max, d, blocks, valid, manifests);
    PlayMore(app, max, d, first, [Req(Dnload([])), Done(true, manifests)]);
    var p := Play(app, max, d, first);
    DownloadEnds(app, max, p, manifests);
    var r := Play(app, max, d, es).(accepted := blocks);
    forall i | 0 <= i < |blocks|
      ensures CallIs(app, r, i) && Total(blocks[..i]) == |Concat(blocks[..i])|
    {
      ConcatLength(blocks[..i]);
    }
    var n := |blocks|;
    WrittenIsConcat(app, r, n);
    ConcatLength(blocks);
    assert r.calls[..n] == r.calls && blocks[..n] == blocks;
    assert AllEven(blocks) <==> forall b :: b in blocks ==> |b| % 2 == 0;
  }

  lemma DownloadEnds(app: int, max: nat, d: Device, manifests: bool)
    requires d.state == DnloadIdle
    ensures
      var r := Play(app, max, d, [Req(Dnload([])), Done(true, manifests)]);
      r.state == ManifestSync && r.status == d.status && r.calls == d.calls
  {
    var es := [Req(Dnload([])), Done(true, manifests)];
    assert es[..1][..0] == [];
    assert Play(app, max, d, es[..1]) == Control(app, max, d, Dnload([])).0;
  }

  /** DNLOAD by state, but for a block that is taken in: without data it is an error and stalls in dfuIDLE, and ends the
      download, once the transfer is over, in dfuDNLOAD-IDLE; in all other states nothing happens. UPLOAD does nothing
      but in dfuIDLE and dfuUPLOAD-IDLE. */
  lemma DownloadByState(app: int, max: nat, d: Device, data: seq<Byte>, len: nat)
    ensures
      var r := d.(pending := None);
      && (d.state == DfuIdle && data == [] ==>
            Control(app, max, d, Dnload(data)) == (r.(status := ErrStalledPkt, state := DfuError), Stall))
      && (d.state == DnloadIdle && data == [] ==>
            Control(app, max, d, Dnload(data)) == (r.(pending := DownloadComplete), Nothing))
      && (d.state != DfuIdle && d.state != DnloadIdle ==> Control(app, max, d, Dnload(data)) == (r, Nothing))
      && (d.state != DfuIdle && d.state != UploadIdle ==> Control(app, max, d, Upload(len)) == (r, Nothing))
  {
  }

  /** The other requests, by state. ABORT returns to dfuIDLE except while a block is programmed, during manifestation
      and from an error; CLRSTATUS leaves the error state; what is not understood is an error and stalls. */
  lemma OtherRequests(app: int, max: nat, d: Device)
    ensures Control(app, max, d, Abort) ==
      (d.(pending := None, state := if d.state.DnBusy? || d.state.Manifest? || d.state.DfuError? then d.state
                                    else DfuIdle), Nothing)
    ensures Control(app, max, d, ClrStatus) ==
      (d.(pending := None, status := OK, state := if d.state == DfuError then DfuIdle else d.state), Nothing)
    ensures Control(app, max, d, Other) == (d.(pending := None, status := ErrStalledPkt, state := DfuError), Stall)
  {
  }

  /** GETSTATE and GETSTATUS report the state and status the device is in once they are answered. GETSTATE changes
      neither; GETSTATUS starts the programming of a block taken in, asking the host for 100 ms, and starts
      manifestation if the application is valid, and is an error if it is not. */
  lemma StatusReported(app: int, max: nat, d: Device, valid: bool)
    ensures Control(app, max, d, GetState) == (d.(pending := None), StateIs(d.state))
    ensures
      var (r, reply) := Control(app, max, d, GetStatus(valid));
      && reply == StatusIs(r.status, if d.state == DnloadSync then 100 else 0, r.state)
      && r.state == (match d.state
                     case DnloadSync => DnBusy
                     case ManifestSync => if valid then Manifest else DfuError
                     case _ => d.state)
      && r.status == (if d.state == ManifestSync && !valid then ErrFirmware else d.status)
      && r.pending == (if r.state == d.state then None else if d.state == DnloadSync then ProgramBlock
                       else if valid then ManifestRequest else None)
  {
  }

  /** A block whose programming fails, and manifestation without a callback, are errors. */
  lemma FailuresReported(app: int, d: Device, manifests: bool)
    ensures d.pending == ProgramBlock ==>
      Complete(app, d, false, manifests).state == DfuError && Complete(app, d, false, manifests).status == ErrVerify
    ensures d.pending == ManifestRequest ==>
      var r := Complete(app, d, true, manifests);
      if manifests then r == d.(pending := None) else r.state == DfuError && r.status == ErrUnknown
  {
  }

  // ---------- upload ----------

  /** Uploads until a short slice, the end of the image: state afterwards and the bytes of each slice. */
  function Uploads(app: int, firmware: seq<Byte>, d: Device, lens: seq<nat>): (Device, seq<seq<Byte>>)
    requires (d.state == DfuIdle || (d.state == UploadIdle && d.offset <= |firmware|))
    decreases |lens|
  {
    if lens == [] then (d, [])
    else
      var (e, reply) := Control(app, |firmware|, d, Upload(lens[0]));
      var slice := firmware[reply.at - app..reply.at - app + reply.len];
      if e.state == DfuIdle then (e, [slice])
      else
        var (last, rest) := Uploads(app, firmware, e, lens[1..]);
        (last, [slice] + rest)
  }

  function Sum(lens: seq<nat>): nat {
    if lens == [] then 0 else lens[0] + Sum(lens[1..])
  }

  function Flatten(slices: seq<seq<Byte>>): seq<Byte> {
    if slices == [] then [] else slices[0] + Flatten(slices[1..])
  }

  /** Where an upload stands. */
  function UploadOffset(d: Device): nat {
    if d.state == DfuIdle then 0 else d.offset
  }

  function Min(a: nat, b: nat): nat {
    if a <= b then a else b
  }

  /** One upload request: the next bytes, as many as asked for or as are left; back to idle exactly if that is fewer. */
  lemma UploadStep(app: int, firmware: seq<Byte>, d: Device, len: nat)
    requires d.state == DfuIdle || (d.state == UploadIdle && d.offset <= |firmware|)
    ensures
      var at := UploadOffset(d);
      var n := Min(len, |firmware| - at);
      Control(app, |firmware|, d, Upload(len)) ==
        (d.(pending := None, offset := at + n, state := if n < len then DfuIdle else UploadIdle), Slice(app + at, n))
  {
  }

  /** The slices answer the requests: consecutive bytes from `start`, as many as asked for in all or up to the end of
      the firmware area; each but the last is as long as requested; and the device is back to idle exactly when more was
      requested than was left, which is exactly when the last slice is short. */
  predicate Answers(firmware: seq<Byte>, start: nat, lens: seq<nat>, e: Device, slices: seq<seq<Byte>>)
    requires start <= |firmware|
  {
    var left := |firmware| - start;
    var n := |slices|;
    && 0 < n <= |lens|
    && Flatten(slices) == firmware[start..start + Min(Sum(lens), left)]
    && (forall i :: 0 <= i < n - 1 ==> |slices[i]| == lens[i])
    && (e.state == DfuIdle <==> Sum(lens) > left)
    && (e.state == DfuIdle <==> |slices[n - 1]| < lens[n - 1])
    && e.offset == start + Min(Sum(lens), left)
  }

  lemma AnswersOne(firmware: seq<Byte>, start: nat, lens: seq<nat>, e: Device, n: nat)
    requires lens != [] && start <= |firmware| && n == Min(lens[0], |firmware| - start) && e.offset == start + n
    requires (e.state == DfuIdle <==> n < lens[0]) && (n < lens[0] || |lens| == 1)
    ensures Answers(firmware, start, lens, e, [firmware[start..start + n]])
  {
    var slice := firmware[start..start + n];
    var none: seq<seq<Byte>> := [];
    assert [slice][1..] == none;
    assert Flatten([slice]) == slice + [];
    if |lens| == 1 {
      assert lens[1..] == [] && Sum(lens) == lens[0] + Sum(lens[1..]);
    }
  }

  lemma Adjoining(s: seq<Byte>, a: nat, b: nat, c: nat)
    requires a <= b <= c <= |s|
    ensures s[a..b] + s[b..c] == s[a..c]
  {
  }

  lemma AnswersMore(firmware: seq<Byte>, start: nat, lens: seq<nat>, e: Device, rest: seq<seq<Byte>>)
    requires lens != [] && start + lens[0] <= |firmware| && Answers(firmware, start + lens[0], lens[1..], e, rest)
    ensures Answers(firmware, start, lens, e, [firmware[start..start + lens[0]]] + rest)
  {
    var slice := firmware[start..start + lens[0]];
    assert ([slice] + rest)[1..] == rest;
    var mid := start + lens[0];
    var m := Min(Sum(lens[1..]), |firmware| - mid);
    Adjoining(firmware, start, mid, mid + m);
  }

  /** For any requests, from wherever an upload stands, the slices answer them. */
  lemma {:induction false} UploadsSlices(app: int, firmware: seq<Byte>, d: Device, lens: seq<nat>)
    requires d.state == DfuIdle || (d.state == UploadIdle && d.offset <= |firmware|)
    requires lens != []
    ensures
      var (e, slices) := Uploads(app, firmware, d, lens);
      Answers(firmware, UploadOffset(d), lens, e, slices)
    decreases |lens|
  {
    hide Control, Answers;
    UploadStep(app, firmware, d, lens[0]);
    var start := UploadOffset(d);
    var n := Min(lens[0], |firmware| - start);
    var e := Control(app, |firmware|, d, Upload(lens[0])).0;
    if n < lens[0] {
      AnswersOne(firmware, start, lens, e, n);
    } else if |lens| == 1 {
      var slice := firmware[start..start + n];
      assert lens[1..] == [] && [slice] + [] == [slice];
      assert Uploads(app, firmware, d, lens) == (e, [slice] + Uploads(app, firmware, e, lens[1..]).1);
      AnswersOne(firmware, start, lens, e, n);
    } else {
      UploadsSlices(app, firmware, e, lens[1..]);
      AnswersMore(firmware, start, lens, Uploads(app, firmware, e, lens[1..]).0,
          Uploads(app, firmware, e, lens[1..]).1);
    }
  }

  // ---------- the mutable state machine ----------

  class DfuDevice {
    const app: int
    const max: nat
    const buffer: array<Byte>
    var state: DfuState
    var status: Status
    var offset: nat
    var size: nat
    var pending: Callback
    ghost var accepted: seq<seq<Byte>>
    ghost var calls: seq<Call>

    ghost predicate Valid()
      reads this
    {
      buffer.Length == BUFFER_SIZE && size <= BUFFER_SIZE
    }

    ghost function Value(): Device
      requires Valid()
      reads this, buffer
    {
      Device(state, status, offset, buffer[..size], pending, accepted, calls)
    }

    /** dfu_setup. */
    constructor (app: int, max: nat)
      ensures Valid() && this.app == app && this.max == max && Value() == INITIAL
    {
      this.app, this.max := app, max;
      buffer := new Byte[BUFFER_SIZE](_ => 0);
      state, status, offset, size, pending := DfuIdle, OK, 0, 0, None;
      accepted, calls := [], [];
    }

    method SetDfuStatus(s: Status)
      requires Valid()
      modifies this`state, this`status
      ensures Valid() && Value() == SetStatus(old(Value()), s)
    {
      if s == OK {
        if state == DfuError { state := DfuIdle; }
      } else {
        state := DfuError;
      }
      status := s;
    }

    /** Takes a block into the download buffer. */
    method Accept(data: seq<Byte>)
      requires Valid() && 0 < |data| <= BUFFER_SIZE
      modifies this`size, this`state, buffer
      ensures Valid() && size == |data| && buffer[..size] == data && state == DnloadSync
    {
      size := |data|;
      for i := 0 to |data|
        invariant Valid() && size == |data| && buffer[..i] == data[..i]
      {
        buffer[i] := data[i];
      }
      state := DnloadSync;
    }

    method DownloadRequest(data: seq<Byte>) returns (reply: Reply)
      requires Valid() && |data| <= BUFFER_SIZE
      modifies this, buffer
      ensures Valid() && (Value(), reply) == Download(old(Value()), data)
    {
      reply := Nothing;
      if state == DfuIdle {
        if data != [] {
          offset := 0;
          Accept(data);
          accepted, calls := [data], [];
        } else {
          SetDfuStatus(ErrStalledPkt);
          reply := Stall;
        }
      } else if state == DnloadIdle {
        if data != [] {
          Accept(data);
          accepted := accepted + [data];
        } else {
          pending := DownloadComplete;
        }
      }
    }

    method UploadRequest(len: nat) returns (reply: Reply)
      requires Valid()
      modifies this
      ensures Valid() && (Value(), reply) == UploadSlice(app, max, old(Value()), len)
    {
      if state != DfuIdle && state != UploadIdle { return Nothing; }
      if state == DfuIdle { offset := 0; }
      var at, toCopy := app + offset, len;
      if offset + len > max {
        toCopy := if offset <= max then max - offset else 0;
        state := DfuIdle;
      } else {
        state := UploadIdle;
      }
      offset := offset + toCopy;
      reply := Slice(at, toCopy);
    }

    method GetStatusRequest(valid: bool) returns (reply: Reply)
      requires Valid() && pending == None
      modifies this
      ensures Valid() && (Value(), reply) == Control(app, max, old(Value()), GetStatus(valid))
    {
      var poll := 0;
      if state == DnloadSync {
        state := DnBusy;
        poll := 100;
        pending := ProgramBlock;
      } else if state == ManifestSync {
        if valid {
          state := Manifest;
          pending := ManifestRequest;
        } else {
          SetDfuStatus(ErrFirmware);
        }
      }
      reply := StatusIs(status, poll, state);
    }

    /** dfu_control_class_request. */
    method ControlRequest(req: Request) returns (reply: Reply)
      requires Valid() && (req.Dnload? ==> |req.data| <= BUFFER_SIZE)
      modifies this, buffer
      ensures Valid() && (Value(), reply) == Control(app, max, old(Value()), req)
    {
      hide Download, UploadSlice;
      reply := Nothing;
      pending := None;
      match req {
        case GetState => reply := StateIs(state);
        case GetStatus(valid) => reply := GetStatusRequest(valid);
        case ClrStatus => SetDfuStatus(OK);
        case Dnload(data) => reply := DownloadRequest(data);
        case Abort =>
          if state in {DfuIdle, DnloadSync, DnloadIdle, ManifestSync, UploadIdle} { state := DfuIdle; }
        case Upload(len) => reply := UploadRequest(len);
        case Other =>
          SetDfuStatus(ErrStalledPkt);
          reply := Stall;
      }
    }

    /** The callback left pending by the last request. */
    method CompleteTransfer(ok: bool, manifests: bool)
      requires Valid()
      modifies this
      ensures Valid() && Value() == Complete(app, old(Value()), ok, manifests)
    {
      var callback := pending;
      pending := None;
      match callback {
        case None =>
        case ProgramBlock =>
          calls := calls + [Call(app + offset, HalfWords(buffer[..size]))];
          if ok {
            offset := offset + size;
            state := DnloadIdle;
          } else {
            SetDfuStatus(ErrVerify);
          }
        case DownloadComplete => state := ManifestSync;
        case ManifestRequest =>
          if !manifests { SetDfuStatus(ErrUnknown); }
      }
    }
  }
}
