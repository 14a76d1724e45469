/** Capturing the first bytes of a stream and replaying them: no byte is lost,
    repeated or reordered. */
module Replay {
  import opened Wrappers
  import opened Text
  import opened Sniff

  /** A byte source. How much a read returns is up to the outside: `ready` bytes
      have arrived, at least one unless the stream is at its end. */
  class Reader {
    const data: Bytes
    var pos: nat

    ghost predicate Valid()
      reads this
    {
      pos <= |data|
    }

    ghost function Rest(): Bytes
      reads this
      requires Valid()
    {
      data[pos..]
    }

    constructor (data: Bytes)
      ensures Valid() && Rest() == data
    {
      this.data, pos := data, 0;
    }

    method Read(room: nat, ready: nat) returns (got: Bytes)
      requires Valid()
      modifies this
      ensures Valid() && got + Rest() == old(Rest()) && |got| <= room
      ensures got == [] <==> room == 0 || old(Rest()) == []
    {
      var left := |data| - pos;
      var arrived := if ready == 0 then 1 else ready;
      var n := if arrived < left then arrived else left;
      n := if n < room then n else room;
      got := data[pos..pos + n];
      pos := pos + n;
    }
  }

  class PrefixedIo {
    var prefix: Bytes
    var offset: nat
    const inner: Reader

    ghost predicate Valid()
      reads this, inner
    {
      inner.Valid() && offset <= |prefix|
    }

    /** Everything still to be read. */
    ghost function Rest(): Bytes
      reads this, inner
      requires Valid()
    {
      prefix[offset..] + inner.Rest()
    }

    constructor (prefix: Bytes, inner: Reader)
      requires inner.Valid()
      ensures Valid() && this.inner == inner && Rest() == prefix + inner.Rest()
    {
      this.prefix, offset, this.inner := prefix, 0, inner;
    }

    /** `poll_read` into a buffer with `room` left. */
    method Read(room: nat, ready: nat) returns (got: Bytes)
      requires Valid()
      modifies this, inner
      ensures Valid() && got + Rest() == old(Rest()) && |got| <= room
      ensures got == [] <==> room == 0 || old(Rest()) == []
    {
      if offset < |prefix| && room > 0 {
        var available := prefix[offset..];
        var take := if |available| < room then |available| else room;
        got := available[..take];
        assert available == got + prefix[offset + take..];
        offset := offset + take;
        if offset == |prefix| {
          prefix, offset := [], 0;
        }
      } else {
        got := inner.Read(room, ready);
      }
    }

    /** Any sequence of buffer sizes. */
    method ReadAll(rooms: seq<nat>, ready: nat -> nat) returns (out: Bytes)
      requires Valid()
      modifies this, inner
      ensures Valid() && out + Rest() == old(Rest())
      ensures (forall i :: 0 <= i < |rooms| ==> rooms[i] > 0) && |rooms| >= |old(Rest())| ==> Rest() == []
    {
      out := [];
      for i := 0 to |rooms|
        invariant Valid() && out + Rest() == old(Rest())
        invariant (forall k :: 0 <= k < |rooms| ==> rooms[k] > 0) ==> |out| >= i || Rest() == []
      {
        var got := Read(rooms[i], ready(i));
        out := out + got;
      }
    }
  }

  // ----- capture

  /** What the select of one turn of `capture_prefix` yields. */
  datatype Event = Deadline | Failure | Arrived(ready: nat)

  const CHUNK: nat := 2048

  function Smaller(a: nat, b: nat): nat {
    if a < b then a else b
  }

  /** In the first `n` turns the clock does not fire and no read fails. */
  ghost predicate Quiet(events: nat -> Event, expired: nat -> bool, n: nat) {
    forall k :: 0 <= k < n ==> events(k).Arrived? && !expired(k)
  }

  /** What a captured prefix is taken for: its verdict, or incomplete. */
  function Taken(bytes: Bytes, max: nat, classify: Classify): Observation {
    match Verdict(CouldBeHttp(bytes), bytes, max, classify)
    case Some(o) => o
    case None => Terminal(Incomplete)
  }

  /** The observer has seen what was captured, the start of it as its lead. */
  ghost predicate Following(st: ObserveState, bytes: Bytes, max: nat, classify: Classify)
    reads st
  {
    && st.Valid() && st.max == max && st.classify == classify && st.seen == bytes && |bytes| <= max
    && (st.lead <= bytes && (bytes != [] && !st.cut ==> st.lead != []))
  }

  /** An observer that was not cut short has the verdict on a uniform capture. */
  lemma Follows(st: ObserveState, bytes: Bytes, max: nat, classify: Classify)
    requires Following(st, bytes, max, classify) && !st.cut && Uniform(bytes)
    ensures st.observation == Verdict(CouldBeHttp(bytes), bytes, max, classify)
  {
    assert bytes[..|st.lead|] == st.lead;
    UniformLead(bytes, |st.lead|);
  }

  lemma LeadKept(lead: Bytes, bytes: Bytes, got: Bytes, max: nat)
    ensures lead <= bytes ==> lead <= bytes + got
    ensures bytes == [] ==> Seen(got, max) <= bytes + got && (got != [] && max > 0 ==> Seen(got, max) != [])
  {
  }

  lemma Together(bytes: Bytes, got: Bytes, rest: Bytes)
    ensures (bytes + got) + rest == bytes + (got + rest) && (got == [] ==> bytes + got == bytes)
  {
  }

  /** One read: the bytes go to the capture and to the observer. */
  method ReadChunk(reader: Reader, st: ObserveState, bytes: Bytes, room: nat, ready: nat, expired: bool,
                   ghost max: nat, ghost classify: Classify)
      returns (all: Bytes)
    requires reader.Valid() && Following(st, bytes, max, classify) && st.observation.None?
    requires 0 < room <= max - |bytes|
    modifies reader, st
    ensures reader.Valid() && all + reader.Rest() == bytes + old(reader.Rest()) && Following(st, all, max, classify)
    ensures all == bytes ==> old(reader.Rest()) == [] && st.observation.Some?
    ensures all != bytes ==> |all| > |bytes|
    ensures all != bytes && !expired ==> !st.cut
    ensures all == bytes && !expired && Uniform(bytes) ==> st.observation == Some(Taken(bytes, max, classify))
  {
    var got := reader.Read(room, ready);
    all := bytes + got;
    Together(bytes, got, reader.Rest());
    LeadKept(st.lead, bytes, got, max);
    if got == [] {
      if Uniform(bytes) { Follows(st, bytes, max, classify); }
      var o := st.FinishStream(expired);
    } else {
      st.Observe(got, expired);
    }
  }

  /** The events of the first `n` turns are arrivals. */
  ghost predicate Arriving(events: nat -> Event, n: nat) {
    forall k :: 0 <= k < n ==> events(k).Arrived?
  }

  /** One turn of the loop: over the limit, past the deadline, a failed read, or a
      read. Unless it fails or takes bytes, it settles the observation. */
  method CaptureTurn(reader: Reader, st: ObserveState, bytes: Bytes, chunk: nat, event: Event, expired: bool,
                     ghost max: nat, ghost classify: Classify)
      returns (r: Result<Bytes>)
    requires reader.Valid() && Following(st, bytes, max, classify) && st.observation.None? && chunk > 0
    modifies reader, st
    ensures reader.Valid() && (r.Err? ==> event.Failure? && reader.Rest() == old(reader.Rest()))
    ensures r.Ok? ==> r.value + reader.Rest() == bytes + old(reader.Rest()) && Following(st, r.value, max, classify)
    ensures r.Ok? && r.value == bytes ==> st.observation.Some?
    ensures r.Ok? && r.value != bytes ==> |r.value| > |bytes| && event.Arrived? && (!expired ==> !st.cut)
    ensures r.Ok? && r.value == bytes && event.Arrived? && !expired && !old(st.cut) && Uniform(bytes) ==>
              st.observation == Some(Taken(bytes, max, classify))
  {
    if !st.cut && Uniform(bytes) { Follows(st, bytes, max, classify); }
    var remaining := st.max - |bytes|;
    if remaining == 0 {
      st.Observe([], expired);
      assert bytes + [] == bytes;
      return Ok(bytes);
    }
    if event.Deadline? {
      st.FinishTimeout();
      return Ok(bytes);
    }
    if event.Failure? { return Err; }
    var all := ReadChunk(reader, st, bytes, Smaller(remaining, chunk), event.ready, expired, max, classify);
    r := Ok(all);
  }

  /** Whatever it captures is exactly what it read, within the limit, and fails only
      when the turn it has come to fails; and a uniform prefix captured undisturbed up to
      its last turn is judged as that prefix. Every turn but the last takes a byte. */
  method CapturePrefix(reader: Reader, limit: nat, classify: Classify, tls: TlsStep,
                       events: nat -> Event, expired: nat -> bool)
      returns (r: Result<(Bytes, Observation)>, ghost turns: nat)
    requires reader.Valid()
    modifies reader
    ensures reader.Valid()
    ensures Arriving(events, turns) && turns <= Cap(limit) && turns <= |old(reader.Rest())|
    ensures r.Ok? ==> r.value.0 + reader.Rest() == old(reader.Rest()) && turns <= |r.value.0| <= Cap(limit)
    ensures r.Err? ==> events(turns).Failure?
    ensures r.Ok? && Quiet(events, expired, turns + 1) && Uniform(r.value.0) ==>
              r.value.1 == Taken(r.value.0, Cap(limit), classify)
  {
    var max := Cap(limit);
    var st := new ObserveState(max, classify, tls);
    var bytes: Bytes := [];
    var chunk := if max == 0 then 1 else Smaller(max, CHUNK);
    var k, done := 0, false;
    turns := 0;
    while !done && st.observation.None?
      invariant reader.Valid() && fresh(st) && Following(st, bytes, max, classify)
      invariant bytes + reader.Rest() == old(reader.Rest()) && k == turns <= |bytes| && Arriving(events, turns)
      invariant done ==> st.observation.Some?
      invariant Quiet(events, expired, turns) && !done ==> !st.cut
      invariant Quiet(events, expired, turns + 1) && done && Uniform(bytes) ==>
                  st.observation == Some(Taken(bytes, max, classify))
      decreases max - |bytes|, !done
    {
      var all := CaptureTurn(reader, st, bytes, chunk, events(k), expired(k), max, classify);
      if all.Err? { return Err, turns; }
      if all.value == bytes {
        done := true;
      } else {
        bytes, k, turns := all.value, k + 1, turns + 1;
      }
    }
    if Uniform(bytes) && !done && !st.cut { Follows(st, bytes, max, classify); }
    var o := st.FinishStream(expired(k));
    r := Ok((bytes, o));
  }

  /** Capture, wrap, and read on with any buffer sizes: the original stream. */
  method CaptureThenReplay(reader: Reader, limit: nat, classify: Classify, tls: TlsStep, events: nat -> Event,
                           expired: nat -> bool, rooms: seq<nat>, ready: nat -> nat)
      returns (r: Result<Bytes>, ghost rest: Bytes, ghost turns: nat)
    requires reader.Valid()
    modifies reader
    ensures Arriving(events, turns) && turns <= Cap(limit)
    ensures r.Err? ==> events(turns).Failure?
    ensures r.Ok? ==> r.value + rest == old(reader.Rest())
    ensures r.Ok? && (forall i :: 0 <= i < |rooms| ==> rooms[i] > 0) && |rooms| >= |old(reader.Rest())| ==>
              r.value == old(reader.Rest())
  {
    rest := [];
    var c;
    c, turns := CapturePrefix(reader, limit, classify, tls, events, expired);
    if c.Err? { return Err, rest, turns; }
    var io := new PrefixedIo(c.value.0, reader);
    var out := io.ReadAll(rooms, ready);
    rest := io.Rest();
    r := Ok(out);
  }
}
