/** Discovery of accessibility handles by probing a process's remote-token
    index space (init_ax_buffer, ax_request, resolve_ax_for_pid and is_window
    in src/macos.rs). */
module AxResolver {
  import opened Wrappers
  import opened Bytes

  /** The value of an accessibility attribute: a string, or some other CF type. */
  datatype AttrValue = StringValue(s: string) | OtherValue

  /** An accessibility element as the model sees it: an opaque identity, what
      `_AXUIElementGetWindow` reports for it (None when that call fails), and
      what copying its "AXSubrole" attribute yields (None when the copy fails or
      returns null). */
  datatype AxElement = AxElement(ref: nat, windowId: Option<u32>, subrole: Option<AttrValue>)

  /** `_AXUIElementCreateWithRemoteToken`: the element the process hands out for
      a 20-byte token, if any. */
  type ElementSource = seq<byte> -> Option<AxElement>

  const TokenSize: nat := 20
  const TokenMagic: u32 := 0x636f636f
  /** Probe indices run over 0..ProbeLimit-1. */
  const ProbeLimit: nat := 100

  /** The first 12 bytes of the token of process `pid`: the pid, a zero word and the magic word. */
  function TokenPrefix(pid: i32): (r: seq<byte>)
    ensures |r| == 12
  {
    LeBytes(I32Bits(pid), 4) + LeBytes(0, 4) + LeBytes(TokenMagic, 4)
  }

  /** The whole token sent when probing index `index` of process `pid`. */
  function ProbeToken(pid: i32, index: u64): (r: seq<byte>)
    ensures |r| == TokenSize
  {
    TokenPrefix(pid) + LeBytes(index, 8)
  }

  /** `buffer[offset..offset + |src|].copy_from_slice(src)`. */
  method CopyFromSlice(buffer: array<byte>, offset: nat, src: seq<byte>)
    requires offset + |src| <= buffer.Length
    modifies buffer
    ensures buffer[..] == old(buffer[..offset]) + src + old(buffer[offset + |src|..])
    ensures forall j :: 0 <= j < buffer.Length ==>
      buffer[j] == if offset <= j < offset + |src| then src[j - offset] else old(buffer[j])
  {
    var k := 0;
    while k < |src|
      invariant 0 <= k <= |src|
      invariant forall j :: 0 <= j < buffer.Length ==>
        buffer[j] == if offset <= j < offset + k then src[j - offset] else old(buffer[j])
    {
      buffer[offset + k] := src[k];
      k := k + 1;
    }
    assert buffer[..] == old(buffer[..offset]) + src + old(buffer[offset + |src|..]);
  }

  /** A fresh token buffer for `pid`; the index part is still zero. */
  method InitAxBuffer(pid: i32) returns (buffer: array<byte>)
    ensures fresh(buffer) && buffer.Length == TokenSize
    ensures buffer[..] == TokenPrefix(pid) + Zeros(8)
    ensures buffer[..4] == LeBytes(I32Bits(pid), 4) && buffer[4..8] == Zeros(4)
    ensures buffer[8..12] == LeBytes(TokenMagic, 4) && buffer[12..] == Zeros(8)
  {
    buffer := new byte[TokenSize](_ => 0);
    CopyFromSlice(buffer, 0, LeBytes(I32Bits(pid), 4));
    CopyFromSlice(buffer, 4, LeBytes(0, 4));
    CopyFromSlice(buffer, 8, LeBytes(TokenMagic, 4));
    ghost var expected := TokenPrefix(pid) + Zeros(8);
    forall j | 0 <= j < TokenSize
      ensures buffer[j] == expected[j]
    {
    }
    assert buffer[..] == expected;
    LeBytesOfZero(4);
    assert buffer[4..8] == expected[4..8];
  }

  /** Writes probe index `id` into bytes 12..20 of the token and asks the
      process for the element of that token. */
  method AxRequest(buffer: array<byte>, id: u64, source: ElementSource) returns (e: Option<AxElement>)
    requires buffer.Length == TokenSize
    modifies buffer
    ensures buffer[..] == old(buffer[..12]) + LeBytes(id, 8)
    ensures e == source(buffer[..])
  {
    CopyFromSlice(buffer, 12, LeBytes(id, 8));
    e := source(buffer[..]);
  }

  /** The pid written into a token can be read back from its first four bytes. */
  lemma {:induction false} TokenPid(pid: i32, index: u64)
    ensures I32FromBits(LeValue(ProbeToken(pid, index)[..4])) == pid
  {
    assert ProbeToken(pid, index)[..4] == LeBytes(I32Bits(pid), 4);
    LeRoundTrip(I32Bits(pid), 4);
  }

  /** Tokens of different processes or different indices differ, so no two
      probes ask the same question. */
  lemma {:induction false} ProbeTokenInjective(pid: i32, i: u64, pid': i32, j: u64)
    requires ProbeToken(pid, i) == ProbeToken(pid', j)
    ensures pid == pid' && i == j
  {
    var t, t' := ProbeToken(pid, i), ProbeToken(pid', j);
    assert t[..4] == LeBytes(I32Bits(pid), 4);
    assert t'[..4] == LeBytes(I32Bits(pid'), 4);
    LeBytesInjective(I32Bits(pid), I32Bits(pid'), 4);
    I32BitsRoundTrip(pid);
    I32BitsRoundTrip(pid');
    assert t[12..] == LeBytes(i, 8);
    assert t'[12..] == LeBytes(j, 8);
    LeBytesInjective(i, j, 8);
  }

  /** The subroles that mark a real window. */
  const AcceptedSubroles: set<string> := {"AXStandardWindow", "AXDialog"}

  /** `is_window`: the element reports a nonzero window id and its subrole is
      the string "AXStandardWindow" or "AXDialog". */
  function IsWindow(e: AxElement): (b: bool)
    ensures b <==> e.windowId.Some? && e.windowId.value != 0
                   && e.subrole.Some? && e.subrole.value.StringValue?
                   && e.subrole.value.s in AcceptedSubroles
  {
    match e.windowId
    case None => false
    case Some(wid) =>
      if wid == 0 then false
      else match e.subrole
        case None => false
        case Some(OtherValue) => false
        case Some(StringValue(s)) => s == "AXStandardWindow" || s == "AXDialog"
  }

  /** Probe `index` of process `pid` hands out a window element for window `w`. */
  ghost predicate Matches(source: ElementSource, pid: i32, index: nat, w: u32)
    requires index < ProbeLimit
  {
    var e := source(ProbeToken(pid, index));
    e.Some? && e.value.windowId == Some(w) && IsWindow(e.value)
  }

  /** The least probe index at or above `from` that matches window `w`. */
  ghost function FirstMatch(source: ElementSource, pid: i32, w: u32, from: nat): (r: Option<nat>)
    requires from <= ProbeLimit
    ensures r.Some? ==>
              && from <= r.value < ProbeLimit && Matches(source, pid, r.value, w)
              && forall k :: from <= k < r.value ==> !Matches(source, pid, k, w)
    ensures r.None? ==> forall k :: from <= k < ProbeLimit ==> !Matches(source, pid, k, w)
    decreases ProbeLimit - from
  {
    if from == ProbeLimit then None
    else if Matches(source, pid, from, w) then Some(from)
    else FirstMatch(source, pid, w, from + 1)
  }

  /** The handle found for `w` by probes below `bound`, if any. */
  ghost predicate FoundBefore(source: ElementSource, pid: i32, w: u32, bound: nat) {
    var m := FirstMatch(source, pid, w, 0);
    m.Some? && m.value < bound
  }

  /** The element of the first probe that matches w. */
  ghost function FirstMatchElement(source: ElementSource, pid: i32, w: u32): (e: AxElement)
    requires FirstMatch(source, pid, w, 0).Some?
    ensures IsWindow(e) && e.windowId == Some(w)
  {
    source(ProbeToken(pid, FirstMatch(source, pid, w, 0).value)).value
  }

  /** What a scan of probes below `bound` has resolved among `targets`. */
  ghost function ResolvedBefore(source: ElementSource, pid: i32, targets: set<u32>, bound: nat)
    : (m: map<u32, AxElement>)
    ensures m.Keys <= targets
    ensures forall w :: w in m <==> w in targets && FoundBefore(source, pid, w, bound)
  {
    map w | w in targets && FoundBefore(source, pid, w, bound) :: FirstMatchElement(source, pid, w)
  }

  /** The reference answer of the resolver: every target that some probe
      below ProbeLimit matches, mapped to the element of its first matching
      probe. */
  ghost function Resolution(source: ElementSource, pid: i32, targets: set<u32>): (m: map<u32, AxElement>)
    ensures m.Keys <= targets
    ensures forall w :: w in m ==> IsWindow(m[w]) && m[w].windowId == Some(w)
    ensures forall w :: w in targets && w !in m ==>
              forall k :: 0 <= k < ProbeLimit ==> !Matches(source, pid, k, w)
    ensures forall w :: w in targets && (exists k :: 0 <= k < ProbeLimit && Matches(source, pid, k, w)) ==> w in m
  {
    ResolvedBefore(source, pid, targets, ProbeLimit)
  }

  /** `resolve_ax_for_pid`: probes indices 0, 1, 2, ... below ProbeLimit and
      stops as soon as every target is resolved.  `tokens` are the tokens
      sent, in order; `unresolved` is the final set of unresolved targets. */
  method ResolveAxForPid(pid: i32, targets: set<u32>, source: ElementSource)
    returns (result: map<u32, AxElement>, ghost unresolved: set<u32>, ghost tokens: seq<seq<byte>>)
    ensures result == Resolution(source, pid, targets)
    ensures result.Keys !! unresolved && result.Keys + unresolved == targets
    ensures |tokens| <= ProbeLimit
    ensures forall k :: 0 <= k < |tokens| ==> tokens[k] == ProbeToken(pid, k)
    ensures |tokens| < ProbeLimit ==> unresolved == {}
    ensures forall k :: 0 <= k < |tokens| ==> ResolvedBefore(source, pid, targets, k).Keys != targets
  {
    var buffer := InitAxBuffer(pid);
    result := map[];
    var remaining := targets;
    tokens := [];
    var id := 0;
    while id < ProbeLimit
      invariant 0 <= id <= ProbeLimit && |tokens| == id
      invariant buffer.Length == TokenSize && buffer[..12] == TokenPrefix(pid)
      invariant forall k :: 0 <= k < id ==> tokens[k] == ProbeToken(pid, k)
      invariant result == ResolvedBefore(source, pid, targets, id)
      invariant remaining == targets - result.Keys
      invariant forall k :: 0 <= k < id ==> ResolvedBefore(source, pid, targets, k).Keys != targets
    {
      if remaining == {} {
        break;
      }
      result, remaining := Probe(buffer, pid, id, targets, source, result, remaining);
      tokens := tokens + [buffer[..]];
      id := id + 1;
    }
    if id < ProbeLimit {
      forall w | w in targets
        ensures w in result.Keys
      {
        assert w !in remaining;
      }
      ResolvedAll(source, pid, targets, id);
    }
    unresolved := remaining;
  }

  /** One iteration of the scan: request the element of probe `id` and record
      it if it is a window element for a still-unresolved target. */
  method Probe(buffer: array<byte>, pid: i32, id: u64, targets: set<u32>, source: ElementSource,
               result: map<u32, AxElement>, remaining: set<u32>)
    returns (result': map<u32, AxElement>, remaining': set<u32>)
    requires id < ProbeLimit
    requires buffer.Length == TokenSize && buffer[..12] == TokenPrefix(pid)
    requires result == ResolvedBefore(source, pid, targets, id)
    requires remaining == targets - result.Keys && remaining != {}
    modifies buffer
    ensures buffer[..] == ProbeToken(pid, id)
    ensures result' == ResolvedBefore(source, pid, targets, id + 1)
    ensures remaining' == targets - result'.Keys
  {
    var e := AxRequest(buffer, id, source);
    result', remaining' := result, remaining;
    if e.Some? && e.value.windowId.Some? {
      var wid := e.value.windowId.value;
      if wid in remaining && IsWindow(e.value) {
        remaining' := remaining - {wid};
        result' := result[wid := e.value];
      }
    }
    ResolveStep(source, pid, targets, id, result, result');
  }

  /** Probe `id` resolves w exactly when w was not found earlier and probe `id` matches it. */
  lemma FoundBeforeStep(source: ElementSource, pid: i32, w: u32, id: nat)
    requires id < ProbeLimit
    ensures FoundBefore(source, pid, w, id + 1) <==>
              FoundBefore(source, pid, w, id) || Matches(source, pid, id, w)
  {
    if !FoundBefore(source, pid, w, id) && Matches(source, pid, id, w) {
      assert FirstMatch(source, pid, w, 0) == Some(id);
    }
  }

  /** One probe extends a partial resolution exactly as ResolvedBefore describes. */
  lemma ResolveStep(source: ElementSource, pid: i32, targets: set<u32>, id: nat,
                    before: map<u32, AxElement>, after: map<u32, AxElement>)
    requires id < ProbeLimit
    requires before == ResolvedBefore(source, pid, targets, id)
    requires var e := source(ProbeToken(pid, id));
      if e.Some? && e.value.windowId.Some? && e.value.windowId.value in targets - before.Keys && IsWindow(e.value)
      then after == before[e.value.windowId.value := e.value]
      else after == before
    ensures after == ResolvedBefore(source, pid, targets, id + 1)
  {
    var e := source(ProbeToken(pid, id));
    var next := ResolvedBefore(source, pid, targets, id + 1);
    if e.Some? && e.value.windowId.Some? && e.value.windowId.value in targets - before.Keys && IsWindow(e.value) {
      var wid := e.value.windowId.value;
      NewMatch(source, pid, targets, id, before, wid);
    } else {
      NoNewMatch(source, pid, targets, id, before);
    }
  }

  lemma NewMatch(source: ElementSource, pid: i32, targets: set<u32>, id: nat,
                 before: map<u32, AxElement>, wid: u32)
    requires id < ProbeLimit
    requires before == ResolvedBefore(source, pid, targets, id)
    requires wid in targets - before.Keys && Matches(source, pid, id, wid)
    ensures ResolvedBefore(source, pid, targets, id + 1)
            == before[wid := source(ProbeToken(pid, id)).value]
  {
    var next := ResolvedBefore(source, pid, targets, id + 1);
    var after := before[wid := source(ProbeToken(pid, id)).value];
    assert FirstMatch(source, pid, wid, 0) == Some(id);
    assert wid in next;
    forall w | w in targets && w != wid
      ensures FoundBefore(source, pid, w, id + 1) == FoundBefore(source, pid, w, id)
    {
      FoundBeforeStep(source, pid, w, id);
    }
    assert next.Keys == after.Keys;
  }

  lemma NoNewMatch(source: ElementSource, pid: i32, targets: set<u32>, id: nat,
                   before: map<u32, AxElement>)
    requires id < ProbeLimit
    requires before == ResolvedBefore(source, pid, targets, id)
    requires forall w :: w in targets - before.Keys ==> !Matches(source, pid, id, w)
    ensures ResolvedBefore(source, pid, targets, id + 1) == before
  {
    var next := ResolvedBefore(source, pid, targets, id + 1);
    forall w | w in targets
      ensures FoundBefore(source, pid, w, id + 1) == FoundBefore(source, pid, w, id)
    {
      FoundBeforeStep(source, pid, w, id);
    }
    assert next.Keys == before.Keys;
  }

  /** Once every target is resolved, later probes add nothing. */
  lemma ResolvedAll(source: ElementSource, pid: i32, targets: set<u32>, id: nat)
    requires id <= ProbeLimit
    requires targets <= ResolvedBefore(source, pid, targets, id).Keys
    ensures ResolvedBefore(source, pid, targets, id) == Resolution(source, pid, targets)
  {
  }
}
