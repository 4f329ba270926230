/** The bytes of event-stream frames (openai.rs:990-1013) on their way through the chunked body. */
module Sse {
  import opened Words
  import opened Frames
  import Streaming

  const DATA: Bytes := [100, 97, 116, 97, 58, 32]                   // "data: "
  const EVENT: Bytes := [101, 118, 101, 110, 116, 58, 32]           // "event: "
  const THEN_DATA: Bytes := [10, 100, 97, 116, 97, 58, 32]          // "\ndata: "
  const END: Bytes := [10, 10]                                      // "\n\n"
  const DONE: Bytes := [91, 68, 79, 78, 69, 93]                     // "[DONE]"

  /** The payload of a chat frame: its JSON, or the closing mark. */
  function Payload(json: Streaming.Frame -> Bytes, f: Streaming.Frame): Bytes {
    if f.Done? then DONE else json(f)
  }

  function ChatFrame(json: Streaming.Frame -> Bytes, f: Streaming.Frame): Bytes {
    DATA + Payload(json, f) + END
  }

  function EventFrame(name: Streaming.Kind -> Bytes, json: Streaming.Event -> Bytes, e: Streaming.Event): Bytes {
    EVENT + name(e.kind) + THEN_DATA + json(e) + END
  }

  /** The frames a sender puts on the channel. */
  function ChatFrames(json: Streaming.Frame -> Bytes, fs: seq<Streaming.Frame>): (r: seq<Bytes>)
    ensures |r| == |fs| && forall i :: 0 <= i < |fs| ==> r[i] == ChatFrame(json, fs[i])
  {
    seq(|fs|, i requires 0 <= i < |fs| => ChatFrame(json, fs[i]))
  }

  function EventFrames(name: Streaming.Kind -> Bytes, json: Streaming.Event -> Bytes, es: seq<Streaming.Event>)
    : (r: seq<Bytes>)
    ensures |r| == |es| && forall i :: 0 <= i < |es| ==> r[i] == EventFrame(name, json, es[i])
  {
    seq(|es|, i requires 0 <= i < |es| => EventFrame(name, json, es[i]))
  }

  /** What a client takes for the payload of a chat frame. */
  function Stripped(frame: Bytes): Bytes {
    if |frame| < 8 then [] else frame[6..|frame| - 2]
  }

  /** A client that decodes the HTTP body gets every chat frame, and from each its payload, whatever the JSON is. */
  lemma {:induction false} ChatBodyArrives(json: Streaming.Frame -> Bytes, fs: seq<Streaming.Frame>)
    ensures Decode(Encode(ChatFrames(json, fs))) == Some((ChatFrames(json, fs), []))
    ensures forall i :: 0 <= i < |fs| ==>
      Stripped(ChatFrames(json, fs)[i]) == if fs[i] == Streaming.Done then [91, 68, 79, 78, 69, 93] else json(fs[i])
  {
    hide Decode, Encode;
    RoundTripIff(ChatFrames(json, fs));
    forall i | 0 <= i < |fs| ensures Stripped(ChatFrames(json, fs)[i]) ==
      if fs[i] == Streaming.Done then [91, 68, 79, 78, 69, 93] else json(fs[i])
    {
      var p := Payload(json, fs[i]);
      assert (DATA + p + END)[6..6 + |p|] == p;
    }
  }

  /** The first line, without its end. */
  function FirstLine(b: Bytes): (r: Bytes)
    ensures r <= b && 10 !in r
  {
    if b == [] || b[0] == 10 then [] else [b[0]] + FirstLine(b[1..])
  }

  lemma {:induction false} FirstLineIs(line: Bytes, rest: Bytes)
    requires 10 !in line
    ensures FirstLine(line + [10] + rest) == line
  {
    var b := line + [10] + rest;
    if line != [] {
      assert b[1..] == line[1..] + [10] + rest;
      FirstLineIs(line[1..], rest);
    }
  }

  /** What a client takes for the name and the data of an event: the first line behind "event: ", and what follows
      "data: " on the second. */
  function NameAndData(frame: Bytes): (Bytes, Bytes) {
    var line := FirstLine(frame);
    if |line| < 7 || |frame| < |line| + 9 then ([], [])
    else (line[7..], frame[|line| + 7..|frame| - 2])
  }

  lemma {:induction false} EventIsRead(name: Bytes, data: Bytes)
    requires 10 !in name
    ensures NameAndData(EVENT + name + THEN_DATA + data + END) == (name, data)
  {
    var frame, tail := EVENT + name + THEN_DATA + data + END, THEN_DATA[1..] + data + END;
    assert frame == (EVENT + name) + [10] + tail;
    FirstLineIs(EVENT + name, tail);
    assert (EVENT + name)[7..] == name;
    assert frame[|EVENT + name| + 7..|frame| - 2] == data;
  }

  /** The same for the events of a response; names have no line ends. */
  lemma {:induction false} EventBodyArrives(
      name: Streaming.Kind -> Bytes, json: Streaming.Event -> Bytes, es: seq<Streaming.Event>)
    ensures Decode(Encode(EventFrames(name, json, es))) == Some((EventFrames(name, json, es), []))
    ensures forall i :: 0 <= i < |es| && 10 !in name(es[i].kind) ==>
      NameAndData(EventFrames(name, json, es)[i]) == (name(es[i].kind), json(es[i]))
  {
    hide Decode, Encode, NameAndData;
    RoundTripIff(EventFrames(name, json, es));
    forall i | 0 <= i < |es| && 10 !in name(es[i].kind)
      ensures NameAndData(EventFrames(name, json, es)[i]) == (name(es[i].kind), json(es[i]))
    {
      EventIsRead(name(es[i].kind), json(es[i]));
    }
  }
}
