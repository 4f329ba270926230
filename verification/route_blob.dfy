/** The route that travels with every WORK frame: built by the coordinator, parsed and validated by each worker. */
module RouteBlob {
  import opened Words
  import opened RouteSearch

  const OUTPUT_LOGITS: u32 := 1
  const RETURN_UPSTREAM: u32 := 1

  /** A host whose length fits the length field of a record. */
  type Host = h: seq<u8> | |h| < U32_LIMIT

  datatype Hop = Hop(host: Host, port: u32, start: u32, end: u32, flags: u32)

  datatype ReturnTarget = ReturnTarget(kind: u32, port: u32, host: Host)

  // ---------- Encoding ----------

  function HopBytes(h: Hop): (b: seq<u8>)
    ensures |b| == 20 + |h.host|
  {
    Be32(|h.host|) + Be32(h.port) + Be32(h.start) + Be32(h.end) + Be32(h.flags) + h.host
  }

  /** The 32-bit word at an offset, most significant byte first. */
  function WordAt(b: seq<u8>, i: nat): int
    requires i + 4 <= |b|
  {
    0x100_0000 * b[i] as int + 0x1_0000 * b[i + 1] as int + 0x100 * b[i + 2] as int + b[i + 3] as int
  }

  /** A record on the wire, byte by byte. */
  lemma {:induction false} HopLayout(h: Hop)
    ensures var b := HopBytes(h);
      && WordAt(b, 0) == |h.host| && WordAt(b, 4) == h.port && WordAt(b, 8) == h.start && WordAt(b, 12) == h.end
      && WordAt(b, 16) == h.flags && b[20..] == h.host
  {
    hide Be32;
    Be32Value(|h.host|);
    Be32Value(h.port);
    Be32Value(h.start);
    Be32Value(h.end);
    Be32Value(h.flags);
  }

  function Records(hops: seq<Hop>): seq<u8>
  {
    if hops == [] then []
    else Records(hops[..|hops| - 1]) + HopBytes(hops[|hops| - 1])
  }

  function ReturnBytes(t: ReturnTarget): (b: seq<u8>)
    ensures |b| == 12 + |t.host|
  {
    Be32(t.kind) + Be32(|t.host|) + Be32(t.port) + t.host
  }

  const UPSTREAM := ReturnTarget(RETURN_UPSTREAM, 0, [])

  /** The whole payload of a route: nothing for a route without hops. */
  function Blob(hops: seq<Hop>): seq<u8>
  {
    if hops == [] then [] else Records(hops) + ReturnBytes(UPSTREAM)
  }

  /** A route a worker may take part in. */
  predicate HopOk(h: Hop, nLayers: u32) {
    && HostOk(h.host) && 0 < h.port <= 65535
    && h.start <= h.end < nLayers
    && h.flags <= OUTPUT_LOGITS && (h.flags == OUTPUT_LOGITS ==> h.end + 1 == nLayers)
  }

  predicate RouteOk(hops: seq<Hop>, nLayers: u32) {
    && (forall i :: 0 <= i < |hops| ==> HopOk(hops[i], nLayers))
    && (forall i :: 0 < i < |hops| ==> hops[i].start == hops[i - 1].end + 1)
  }

  // ---------- Parsing ----------

  predicate HasNul(b: seq<u8>) {
    exists i :: 0 <= i < |b| && b[i] == 0
  }

  /** The host length rule of get_entry and validate (strict), and of get_return_target (lax). */
  predicate LengthOk(n: nat, strict: bool) {
    strict ==> 0 < n < NI_MAXHOST
  }

  /** One record off the front of b, with what follows it. */
  function ParseHop(b: seq<u8>, strict: bool): Option<(Hop, seq<u8>)> {
    if |b| < 20 then None
    else
      var n := FromBe32(b[..4]);
      var rest := b[20..];
      if !LengthOk(n, strict) || n > |rest| then None
      else if HasNul(rest[..n]) then None
      else
        var h := Hop(rest[..n], FromBe32(b[4..8]), FromBe32(b[8..12]), FromBe32(b[12..16]), FromBe32(b[16..20]));
        Some((h, rest[n..]))
  }

  /** The first n records of b, with what follows them. */
  function ParseHops(b: seq<u8>, n: nat, strict: bool): Option<(seq<Hop>, seq<u8>)> {
    if n == 0 then Some(([], b))
    else
      var (hops, rest) :- ParseHops(b, n - 1, strict);
      var (h, rest') :- ParseHop(rest, strict);
      Some((hops + [h], rest'))
  }

  function ParseReturn(b: seq<u8>): Option<ReturnTarget> {
    if |b| < 12 then None
    else
      var n := FromBe32(b[4..8]);
      if n >= NI_MAXHOST || n > |b| - 12 || HasNul(b[12..12 + n]) then None
      else if |b| != 12 + n then None
      else Some(ReturnTarget(FromBe32(b[..4]), FromBe32(b[8..12]), b[12..12 + n]))
  }

  ghost predicate RecordOk(h: Hop, strict: bool) {
    LengthOk(|h.host|, strict) && !HasNul(h.host)
  }

  /** A record is parsed exactly when the bytes begin with its encoding. */
  lemma {:induction false} ParseHopIff(b: seq<u8>, strict: bool, h: Hop, rest: seq<u8>)
    ensures ParseHop(b, strict) == Some((h, rest)) <==> RecordOk(h, strict) && b == HopBytes(h) + rest
  {
    if RecordOk(h, strict) && b == HopBytes(h) + rest {
      ParseOfHopBytes(b, strict, h, rest);
    }
    if ParseHop(b, strict) == Some((h, rest)) {
      hide LengthOk, HasNul, Be32, FromBe32;
      Be32FromBe32(b[..4]);
      Be32FromBe32(b[4..8]);
      Be32FromBe32(b[8..12]);
      Be32FromBe32(b[12..16]);
      Be32FromBe32(b[16..20]);
      var n := FromBe32(b[..4]);
      assert h.host == b[20..20 + n] && rest == b[20 + n..];
      assert b == b[..4] + b[4..8] + b[8..12] + b[12..16] + b[16..20] + b[20..20 + n] + b[20 + n..];
    }
  }

  lemma {:induction false} ParseOfHopBytes(b: seq<u8>, strict: bool, h: Hop, rest: seq<u8>)
    requires RecordOk(h, strict) && b == HopBytes(h) + rest
    ensures ParseHop(b, strict) == Some((h, rest))
  {
    hide LengthOk, HasNul, Be32, FromBe32;
    Be32Inverse(|h.host|);
    Be32Inverse(h.port);
    Be32Inverse(h.start);
    Be32Inverse(h.end);
    Be32Inverse(h.flags);
    assert b[..4] == Be32(|h.host|);
    assert b[4..8] == Be32(h.port);
    assert b[8..12] == Be32(h.start);
    assert b[12..16] == Be32(h.end);
    assert b[16..20] == Be32(h.flags);
    assert b[20..][..|h.host|] == h.host;
    assert b[20..][|h.host|..] == rest;
  }

  ghost predicate AllOk(hops: seq<Hop>, strict: bool) {
    forall i :: 0 <= i < |hops| ==> RecordOk(hops[i], strict)
  }

  /** n records are parsed exactly when the bytes begin with their encodings, in order. */
  lemma {:induction false} ParseHopsIff(b: seq<u8>, n: nat, strict: bool, hops: seq<Hop>, rest: seq<u8>)
    ensures ParseHops(b, n, strict) == Some((hops, rest)) <==>
      |hops| == n && AllOk(hops, strict) && b == Records(hops) + rest
    decreases n, 1
  {
    hide ParseHop, RecordOk, HopBytes;
    if n == 0 {
      assert Records([]) + rest == rest;
      assert |hops| == 0 ==> hops == [];
    } else {
      if |hops| == n && AllOk(hops, strict) && b == Records(hops) + rest {
        assert hops == hops[..n - 1] + [hops[n - 1]];
        ParseAppended(b, n, strict, hops[..n - 1], hops[n - 1], rest);
      }
      if ParseHops(b, n, strict) == Some((hops, rest)) {
        AppendParsed(b, n, strict, hops, rest);
      }
    }
  }

  lemma {:induction false} AppendParsed(b: seq<u8>, n: nat, strict: bool, hops: seq<Hop>, rest: seq<u8>)
    requires n != 0 && ParseHops(b, n, strict) == Some((hops, rest))
    ensures |hops| == n && AllOk(hops, strict) && b == Records(hops) + rest
    decreases n, 0
  {
    hide ParseHop, RecordOk, HopBytes;
    var (front, mid) := ParseHops(b, n - 1, strict).value;
    var h := ParseHop(mid, strict).value.0;
    ParseHopsIff(b, n - 1, strict, front, mid);
    ParseHopIff(mid, strict, h, rest);
    assert hops[..n - 1] == front && hops[n - 1] == h;
    Associate(Records(front), HopBytes(h), rest);
  }

  lemma {:induction false} ParseAppended(b: seq<u8>, n: nat, strict: bool, front: seq<Hop>, h: Hop, rest: seq<u8>)
    requires n == |front| + 1 && AllOk(front + [h], strict)
    requires b == Records(front + [h]) + rest
    ensures ParseHops(b, n, strict) == Some((front + [h], rest))
    decreases n, 0
  {
    hide ParseHop, HopBytes, RecordOk;
    assert (front + [h])[..n - 1] == front && (front + [h])[n - 1] == h;
    assert AllOk(front, strict);
    var mid := HopBytes(h) + rest;
    assert b == Records(front) + mid;
    ParseHopsIff(b, n - 1, strict, front, mid);
    ParseHopIff(mid, strict, h, rest);
  }

  // ---------- What the workers' parsers compute ----------

  /** dist_route_validate_blob. */
  predicate Accepts(blob: seq<u8>, count: u32, nLayers: u32) {
    if count == 0 then blob == []
    else
      match ParseHops(blob, count, true)
      case None => false
      case Some((hops, rest)) =>
        RouteOk(hops, nLayers) && ParseReturn(rest) == Some(UPSTREAM)
  }

  function Entry(blob: seq<u8>, count: u32, i: u32): Option<Hop> {
    if i >= count then None
    else
      var (hops, _) :- ParseHops(blob, i + 1, true);
      if hops == [] then None else Some(hops[|hops| - 1])
  }

  function Return(blob: seq<u8>, count: u32): Option<ReturnTarget> {
    if count == 0 then None
    else
      var (_, rest) :- ParseHops(blob, count, false);
      ParseReturn(rest)
  }

  /** A return record is parsed exactly when the bytes are its encoding. */
  lemma {:induction false} ReturnIff(b: seq<u8>, t: ReturnTarget)
    ensures ParseReturn(b) == Some(t) <==> |t.host| < NI_MAXHOST && !HasNul(t.host) && b == ReturnBytes(t)
  {
    hide HasNul, Be32, FromBe32;
    if |t.host| < NI_MAXHOST && !HasNul(t.host) && b == ReturnBytes(t) {
      Be32Inverse(t.kind);
      Be32Inverse(|t.host|);
      Be32Inverse(t.port);
      assert b[..4] == Be32(t.kind) && b[4..8] == Be32(|t.host|) && b[8..12] == Be32(t.port);
      assert b[12..12 + |t.host|] == t.host;
    }
    if ParseReturn(b) == Some(t) {
      Be32FromBe32(b[..4]);
      Be32FromBe32(b[4..8]);
      Be32FromBe32(b[8..12]);
      var n := FromBe32(b[4..8]);
      assert b == b[..4] + b[4..8] + b[8..12] + b[12..12 + n];
    }
  }

  /** The return record that validation accepts is the one the coordinator writes. */
  lemma {:induction false} UpstreamIff(b: seq<u8>)
    ensures ParseReturn(b) == Some(UPSTREAM) <==> b == ReturnBytes(UPSTREAM)
  {
    hide ParseReturn, ReturnBytes;
    ReturnIff(b, UPSTREAM);
  }

  lemma {:induction false} RouteRecordsOk(hops: seq<Hop>, nLayers: u32, strict: bool)
    requires RouteOk(hops, nLayers)
    ensures AllOk(hops, strict)
  {
  }

  /** Validation accepts the encodings of well-formed routes and nothing else. */
  lemma {:induction false} AcceptsIff(blob: seq<u8>, count: u32, nLayers: u32)
    ensures Accepts(blob, count, nLayers) <==>
      exists hops :: |hops| == count && RouteOk(hops, nLayers) && blob == Blob(hops)
  {
    hide ParseHops, ParseReturn, AllOk, RouteOk;
    if Accepts(blob, count, nLayers) {
      if count == 0 {
        assert RouteOk([], nLayers) && blob == Blob([]) by { EmptyRouteOk(nLayers); }
      } else {
        var (hops, rest) := ParseHops(blob, count, true).value;
        ParseHopsIff(blob, count, true, hops, rest);
        UpstreamIff(rest);
        assert blob == Blob(hops);
      }
    }
    forall hops | |hops| == count && RouteOk(hops, nLayers) && blob == Blob(hops)
      ensures Accepts(blob, count, nLayers)
    {
      if count != 0 {
        RouteRecordsOk(hops, nLayers, true);
        ParseHopsIff(blob, count, true, hops, ReturnBytes(UPSTREAM));
        UpstreamIff(ReturnBytes(UPSTREAM));
      }
    }
  }

  lemma {:induction false} EmptyRouteOk(nLayers: u32)
    ensures RouteOk([], nLayers)
  {
  }

  /** The round trip: the blob of a well-formed route is accepted, entry i is hop i, and results go upstream. */
  lemma {:induction false} RoundTrip(hops: seq<Hop>, nLayers: u32)
    requires 0 < |hops| < U32_LIMIT && RouteOk(hops, nLayers)
    ensures Accepts(Blob(hops), |hops|, nLayers)
    ensures forall i :: 0 <= i < |hops| ==> Entry(Blob(hops), |hops|, i) == Some(hops[i])
    ensures Return(Blob(hops), |hops|) == Some(UPSTREAM)
  {
    hide ParseHops, ParseReturn, AllOk, RouteOk;
    AcceptsIff(Blob(hops), |hops|, nLayers);
    forall i | 0 <= i < |hops| ensures Entry(Blob(hops), |hops|, i) == Some(hops[i]) {
      RouteRecordsOk(hops, nLayers, true);
      EntryOfRecords(hops, ReturnBytes(UPSTREAM), i);
    }
    RouteRecordsOk(hops, nLayers, false);
    ParseHopsIff(Blob(hops), |hops|, false, hops, ReturnBytes(UPSTREAM));
    UpstreamIff(ReturnBytes(UPSTREAM));
  }

  lemma {:induction false} RecordsSplit(hops: seq<Hop>, k: nat)
    requires k <= |hops|
    ensures Records(hops) == Records(hops[..k]) + Records(hops[k..])
  {
    hide Records, HopBytes;
    var n := |hops|;
    RecordsLast(hops);
    RecordsLast(hops[k..]);
    if k == n {
      assert hops[..k] == hops && hops[k..] == [];
    } else {
      var front, h := hops[..n - 1], HopBytes(hops[n - 1]);
      RecordsSplit(front, k);
      assert front[..k] == hops[..k];
      assert front[k..] == hops[k..][..n - k - 1];
      Associate(Records(front[..k]), Records(front[k..]), h);
    }
  }

  lemma {:induction false} RecordsLast(hops: seq<Hop>)
    ensures hops == [] ==> Records(hops) == []
    ensures hops != [] ==> Records(hops) == Records(hops[..|hops| - 1]) + HopBytes(hops[|hops| - 1])
  {
  }

  lemma {:induction false} EntryOfRecords(hops: seq<Hop>, tail: seq<u8>, i: nat)
    requires i < |hops| < U32_LIMIT && AllOk(hops, true)
    ensures Entry(Records(hops) + tail, |hops|, i) == Some(hops[i])
  {
    hide ParseHops, Records, RecordOk;
    var rest := Records(hops[i + 1..]) + tail;
    RecordsSplit(hops, i + 1);
    assert Records(hops) + tail == Records(hops[..i + 1]) + rest;
    ParseHopsIff(Records(hops) + tail, i + 1, true, hops[..i + 1], rest);
  }

  /** A blob determines its route. */
  lemma {:induction false} BlobInjective(a: seq<Hop>, b: seq<Hop>, nLayers: u32)
    requires |a| == |b| && RouteOk(a, nLayers) && RouteOk(b, nLayers) && Blob(a) == Blob(b)
    ensures a == b
  {
    hide ParseHops, AllOk, RouteOk, Records;
    RouteRecordsOk(a, nLayers, true);
    RouteRecordsOk(b, nLayers, true);
    if a != [] {
      ParseHopsIff(Blob(a), |a|, true, a, ReturnBytes(UPSTREAM));
      ParseHopsIff(Blob(a), |a|, true, b, ReturnBytes(UPSTREAM));
    }
  }

  // ---------- What a worker asks of the route in a WORK frame ----------

  /** The checks of dist_worker_process_work_payload on the route of a frame for the layers start..end. */
  predicate RouteChecks(blob: seq<u8>, count: u32, index: u32, nLayers: u32, start: nat, end: nat, outputLogits: bool) {
    && count != 0 && index < count && Accepts(blob, count, nLayers)
    && var h := Entry(blob, count, index);
    && h.Some? && h.value.start == start && h.value.end == end && (h.value.flags % 2 == 1 <==> outputLogits)
    && (if index + 1 < count then Entry(blob, count, index + 1).Some? && !outputLogits
        else Return(blob, count).Some? && Return(blob, count).value.kind == RETURN_UPSTREAM)
  }

  /** hops is the route of the frame, and the frame is for its hop at index. */
  ghost predicate FrameFor(
      hops: seq<Hop>, blob: seq<u8>, count: u32, index: u32, nLayers: u32, start: nat, end: nat, outputLogits: bool)
  {
    && |hops| == count && index < count && RouteOk(hops, nLayers) && blob == Blob(hops)
    && hops[index].start == start && hops[index].end == end && (hops[index].flags == OUTPUT_LOGITS <==> outputLogits)
  }

  /** A frame passes exactly when it carries the encoding of a well-formed route and is for its hop at the index; that a
      hop before the last cannot ask for logits then follows. */
  lemma {:induction false} RouteChecksIff(
      blob: seq<u8>, count: u32, index: u32, nLayers: u32, start: nat, end: nat, outputLogits: bool)
    ensures RouteChecks(blob, count, index, nLayers, start, end, outputLogits) <==>
      exists hops :: FrameFor(hops, blob, count, index, nLayers, start, end, outputLogits)
  {
    hide RouteOk, Accepts, Entry, Return, Blob;
    AcceptsIff(blob, count, nLayers);
    forall hops | |hops| == count && index < count && RouteOk(hops, nLayers) && blob == Blob(hops)
      ensures RouteChecks(blob, count, index, nLayers, start, end, outputLogits) <==>
        FrameFor(hops, blob, count, index, nLayers, start, end, outputLogits)
    {
      RoundTrip(hops, nLayers);
      LogitsOnlyLast(hops, nLayers, index);
    }
  }

  lemma {:induction false} LogitsOnlyLast(hops: seq<Hop>, nLayers: u32, i: nat)
    requires RouteOk(hops, nLayers) && i < |hops|
    ensures hops[i].flags % 2 == 1 <==> hops[i].flags == OUTPUT_LOGITS
    ensures hops[i].flags == OUTPUT_LOGITS ==> i + 1 == |hops|
  {
    assert HopOk(hops[i], nLayers);
    if i + 1 < |hops| {
      assert hops[i + 1].start == hops[i + 1 - 1].end + 1;
      assert HopOk(hops[i + 1], nLayers);
    }
  }

  // ---------- The parsers as they walk the payload ----------

  /** One record at offset p, with the fixed part read before the host length is checked. */
  method ReadRecord(blob: seq<u8>, p: nat, strict: bool) returns (record: Option<Hop>, p': nat)
    requires p <= |blob|
    ensures p' <= |blob|
    ensures record.None? ==> ParseHop(blob[p..], strict) == None
    ensures record.Some? ==> ParseHop(blob[p..], strict) == Some((record.value, blob[p'..]))
  {
    hide LengthOk, HasNul, FromBe32;
    p' := p;
    var remaining := |blob| - p;
    ghost var b := blob[p..];
    if remaining < 20 { return None, p; }
    var n := FromBe32(blob[p..p + 4]);
    var port, start := FromBe32(blob[p + 4..p + 8]), FromBe32(blob[p + 8..p + 12]);
    var end, flags := FromBe32(blob[p + 12..p + 16]), FromBe32(blob[p + 16..p + 20]);
    assert b[..4] == blob[p..p + 4] && b[4..8] == blob[p + 4..p + 8] && b[8..12] == blob[p + 8..p + 12];
    assert b[12..16] == blob[p + 12..p + 16] && b[16..20] == blob[p + 16..p + 20] && b[20..] == blob[p + 20..];
    p' := p + 20;
    remaining := remaining - 20;
    if !LengthOk(n, strict) || n > remaining { return None, p'; }
    var host := blob[p'..p' + n];
    assert blob[p + 20..][..n] == host && blob[p + 20..][n..] == blob[p + 20 + n..];
    if HasNul(host) { return None, p'; }
    return Some(Hop(host, port, start, end, flags)), p' + n;
  }

  /** A failed parse stays failed, and a longer parse extends a shorter one. */
  lemma {:induction false} ParsePrefix(b: seq<u8>, k: nat, n: nat, strict: bool)
    requires k <= n
    ensures ParseHops(b, k, strict).None? ==> ParseHops(b, n, strict).None?
    ensures ParseHops(b, n, strict).Some? ==>
      && |ParseHops(b, k, strict).value.0| == k && |ParseHops(b, n, strict).value.0| == n
      && ParseHops(b, k, strict).value.0 == ParseHops(b, n, strict).value.0[..k]
  {
    hide ParseHop;
    if k < n {
      ParsePrefix(b, k, n - 1, strict);
    } else if n > 0 {
      ParsePrefix(b, n - 1, n - 1, strict);
    }
  }

  method GetEntry(blob: seq<u8>, count: u32, target: u32) returns (r: Option<Hop>)
    ensures r == Entry(blob, count, target)
  {
    hide ParseHop;
    if target >= count { return None; }
    var p: nat := 0;
    var i := 0;
    assert blob[0..] == blob;
    while true
      invariant 0 <= i <= target && p <= |blob|
      invariant ParseHops(blob, i, true).Some? && ParseHops(blob, i, true).value.1 == blob[p..]
      decreases target - i
    {
      var record;
      record, p := ReadRecord(blob, p, true);
      ParsePrefix(blob, i + 1, target + 1, true);
      if record.None? { return None; }
      if i == target { return record; }
      i := i + 1;
    }
  }

  method GetReturnTarget(blob: seq<u8>, count: u32) returns (r: Option<ReturnTarget>)
    ensures r == Return(blob, count)
  {
    hide ParseHop;
    if count == 0 { return None; }
    var p: nat := 0;
    assert blob[0..] == blob;
    for i := 0 to count
      invariant p <= |blob|
      invariant ParseHops(blob, i, false).Some? && ParseHops(blob, i, false).value.1 == blob[p..]
    {
      var record;
      record, p := ReadRecord(blob, p, false);
      ParsePrefix(blob, i + 1, count, false);
      if record.None? { return None; }
    }
    r, p := ReadReturn(blob, p);
    if r.Some? && p != |blob| { return None; }
  }

  /** The return record at offset p; what follows it is not looked at. */
  method ReadReturn(blob: seq<u8>, p: nat) returns (r: Option<ReturnTarget>, p': nat)
    requires p <= |blob|
    ensures p <= p' <= |blob|
    ensures ParseReturn(blob[p..]) == if r.Some? && p' == |blob| then r else None
  {
    hide HasNul, FromBe32;
    ghost var b := blob[p..];
    if |blob| - p < 12 { return None, p; }
    var kind, n, port := FromBe32(blob[p..p + 4]), FromBe32(blob[p + 4..p + 8]), FromBe32(blob[p + 8..p + 12]);
    assert b[..4] == blob[p..p + 4] && b[4..8] == blob[p + 4..p + 8] && b[8..12] == blob[p + 8..p + 12];
    p' := p + 12;
    if n >= NI_MAXHOST || n > |blob| - p' { return None, p'; }
    assert b[12..12 + n] == blob[p'..p' + n];
    if HasNul(blob[p'..p' + n]) { return None, p'; }
    return Some(ReturnTarget(kind, port, blob[p'..p' + n])), p' + n;
  }

  /** The extra checks of validation on a record, in source order. */
  predicate FieldsOk(h: Hop, nLayers: u32, first: bool, prevEnd: u32) {
    && 0 < h.port <= 65535
    && !(h.start >= nLayers || h.end >= nLayers || h.end < h.start)
    && h.flags / 2 == 0
    && (h.flags % 2 == 0 || (h.end + 1) % U32_LIMIT == nLayers)
    && (first || h.start == (prevEnd + 1) % U32_LIMIT)
  }

  method ValidateBlob(blob: seq<u8>, count: u32, nLayers: u32) returns (ok: bool)
    ensures ok <==> exists hops :: |hops| == count && RouteOk(hops, nLayers) && blob == Blob(hops)
  {
    hide ParseHop, ParseReturn, RouteOk, FieldsOk, Blob;
    AcceptsIff(blob, count, nLayers);
    if count == 0 { return blob == []; }
    var p: nat := 0;
    var prevEnd: u32 := U32_LIMIT - 1;
    assert blob[0..] == blob;
    ghost var hops: seq<Hop> := [];
    EmptyRouteOk(nLayers);
    for i := 0 to count
      invariant p <= |blob| && |hops| == i
      invariant ParseHops(blob, i, true) == Some((hops, blob[p..]))
      invariant RouteOk(hops, nLayers)
      invariant i != 0 ==> prevEnd == hops[i - 1].end
    {
      var record;
      ghost var at := p;
      record, p := ReadRecord(blob, p, true);
      ParsePrefix(blob, i + 1, count, true);
      if record.None? { return false; }
      var h := record.value;
      RouteExtend(hops, h, nLayers, prevEnd);
      ParsedHost(blob[at..], h, blob[p..]);
      assert hops + [h] == ParseHops(blob, i + 1, true).value.0;
      if !FieldsOk(h, nLayers, i == 0, prevEnd) {
        if ParseHops(blob, count, true).Some? {
          RoutePrefix(ParseHops(blob, count, true).value.0, i + 1, nLayers);
        }
        return false;
      }
      hops := hops + [h];
      prevEnd := h.end;
    }
    var target;
    target, p := ReadReturn(blob, p);
    if target.None? || target.value.kind != RETURN_UPSTREAM { return false; }
    if target.value.host != [] || target.value.port != 0 { return false; }
    return p == |blob|;
  }

  lemma {:induction false} ParsedHost(b: seq<u8>, h: Hop, rest: seq<u8>)
    ensures ParseHop(b, true) == Some((h, rest)) ==> HostOk(h.host)
  {
    ParseHopIff(b, true, h, rest);
  }

  lemma {:induction false} RoutePrefix(hops: seq<Hop>, k: nat, nLayers: u32)
    requires k <= |hops|
    ensures RouteOk(hops, nLayers) ==> RouteOk(hops[..k], nLayers)
  {
  }

  /** The field checks on the next record are what is needed to extend a well-formed route. */
  lemma {:induction false} RouteExtend(hops: seq<Hop>, h: Hop, nLayers: u32, prevEnd: u32)
    requires RouteOk(hops, nLayers) && (hops != [] ==> prevEnd == hops[|hops| - 1].end)
    ensures HostOk(h.host) ==>
      (RouteOk(hops + [h], nLayers) <==> FieldsOk(h, nLayers, hops == [], prevEnd))
  {
    var n := |hops|;
    assert (hops + [h])[n] == h && forall i :: 0 <= i < n ==> (hops + [h])[i] == hops[i];
    if RouteOk(hops + [h], nLayers) {
      assert HopOk((hops + [h])[n], nLayers);
      assert n > 0 ==> (hops + [h])[n].start == (hops + [h])[n - 1].end + 1;
    }
  }

  // ---------- Building ----------

  function HopOf(w: Worker): (h: Hop)
    requires exists n: u32 :: Admitted(w, n)
    ensures h.host == w.host && h.port == w.port && h.start == w.start && h.end == w.end
  {
    Hop(w.host, w.port, w.start, w.end, if w.hasOutput then OUTPUT_LOGITS else 0)
  }

  function HopsOf(route: seq<Worker>, nLayers: u32): (hops: seq<Hop>)
    requires forall i :: 0 <= i < |route| ==> Admitted(route[i], nLayers)
    ensures |hops| == |route| && forall i :: 0 <= i < |hops| ==> hops[i] == HopOf(route[i])
  {
    seq(|route|, i requires 0 <= i < |route| => HopOf(route[i]))
  }

  /** A chain of admitted workers that the search returns is a route every worker on it accepts. */
  lemma {:induction false} ChainRouteOk(localHead: bool, ws: set<Worker>, next: nat, route: seq<Worker>, nLayers: u32)
    requires 0 < nLayers && Chain(localHead, ws, next, nLayers - 1, route)
    requires forall w :: w in ws ==> Admitted(w, nLayers)
    ensures forall i :: 0 <= i < |route| ==> Admitted(route[i], nLayers)
    ensures RouteOk(HopsOf(route, nLayers), nLayers)
  {
    hide Chain;
    ChainShape(localHead, ws, next, nLayers - 1, route);
    var hops := HopsOf(route, nLayers);
    forall i | 0 < i < |hops| ensures hops[i].start == hops[i - 1].end + 1 {
      assert route[(i - 1) + 1].start == route[i - 1].end + 1;
    }
  }

  method AppendHop(blob: seq<u8>, h: Hop) returns (r: Option<seq<u8>>)
    requires |blob| < U32_LIMIT
    ensures r.Some? <==> 0 < |h.host| < NI_MAXHOST && |blob + HopBytes(h)| < U32_LIMIT
    ensures r.Some? ==> r.value == blob + HopBytes(h)
  {
    hide Be32;
    var hostLen := |h.host|;
    if hostLen == 0 || hostLen >= NI_MAXHOST { return None; }
    var add := 20 + hostLen;
    if add > U32_LIMIT - 1 || |blob| > U32_LIMIT - 1 - add { return None; }
    return Some(blob + (Be32(hostLen) + Be32(h.port) + Be32(h.start) + Be32(h.end) + Be32(h.flags) + h.host));
  }

  lemma {:induction false} RecordsGrow(hops: seq<Hop>, k: nat)
    requires k <= |hops|
    ensures |Records(hops[..k])| <= |Records(hops)|
  {
    RecordsSplit(hops, k);
  }

  /** A plan of admitted workers gets its blob exactly when that fits a 32-bit byte count. */
  method BuildBlob(route: seq<Worker>, nLayers: u32) returns (r: Option<seq<u8>>)
    requires forall i :: 0 <= i < |route| ==> Admitted(route[i], nLayers)
    ensures r.Some? <==> |Blob(HopsOf(route, nLayers))| < U32_LIMIT
    ensures r.Some? ==> r.value == Blob(HopsOf(route, nLayers))
  {
    hide HopBytes, Records, Be32;
    ghost var hops := HopsOf(route, nLayers);
    var blob: seq<u8> := [];
    assert Records(hops[..0]) == [] by { RecordsLast(hops[..0]); }
    for i := 0 to |route|
      invariant blob == Records(hops[..i]) && |blob| < U32_LIMIT
    {
      var next := AppendHop(blob, HopOf(route[i]));
      assert hops[..i + 1][..i] == hops[..i] && hops[..i + 1][i] == hops[i];
      RecordsLast(hops[..i + 1]);
      RecordsGrow(hops, i + 1);
      if next.None? { return None; }
      blob := next.value;
    }
    assert hops[..|route|] == hops;
    if route == [] { return Some([]); }
    if |blob| > U32_LIMIT - 1 - 12 { return None; }
    return Some(blob + (Be32(RETURN_UPSTREAM) + Be32(0) + Be32(0)));
  }
}
