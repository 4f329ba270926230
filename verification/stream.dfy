/** Incremental decoding and the two stream producers: what is streamed is what a single reply would say. */
module Streaming {
  import opened Words

  type Token = u32

  /** The tokenizer's decode with special tokens skipped; None is a decoding error. */
  type Decode = seq<Token> -> Option<string>

  const REPLACEMENT: char := '\U{fffd}'

  /** The text without its trailing replacement characters, which an unfinished UTF-8 character decodes to. */
  function Stable(s: string): (r: string)
    ensures r <= s
    ensures r != [] ==> r[|r| - 1] != REPLACEMENT
    ensures forall i :: |r| <= i < |s| ==> s[i] == REPLACEMENT
  {
    if s != [] && s[|s| - 1] == REPLACEMENT then Stable(s[..|s| - 1]) else s
  }

  /** What has been emitted once the first k tokens went through without an error. */
  function EmittedAfter(decode: Decode, tokens: seq<Token>, k: nat): Option<string>
    requires k <= |tokens|
  {
    if k == 0 then Some("")
    else
      var before :- EmittedAfter(decode, tokens, k - 1);
      var decoded :- decode(tokens[..k]);
      if before <= Stable(decoded) then Some(Stable(decoded)) else None
  }

  /** The tokens can be streamed: every prefix decodes, the stable text only grows, and the whole decodes. */
  predicate Streamable(decode: Decode, tokens: seq<Token>) {
    EmittedAfter(decode, tokens, |tokens|).Some? && decode(tokens).Some?
  }

  lemma {:induction false} EmittedIsPrefix(decode: Decode, tokens: seq<Token>)
    requires Streamable(decode, tokens)
    ensures EmittedAfter(decode, tokens, |tokens|).value <= decode(tokens).value
  {
    assert tokens[..|tokens|] == tokens;
  }

  lemma {:induction false} EmittedNothing(decode: Decode, tokens: seq<Token>)
    ensures EmittedAfter(decode, tokens, 0) == Some("")
  {
  }

  lemma {:induction false} EmittedNext(decode: Decode, tokens: seq<Token>, k: nat, was: string)
    requires k < |tokens| && EmittedAfter(decode, tokens, k) == Some(was)
    ensures var d := decode(tokens[..k + 1]);
      EmittedAfter(decode, tokens, k + 1) == if d.Some? && was <= Stable(d.value) then Some(Stable(d.value)) else None
  {
  }

  lemma {:induction false} EmittedStuck(decode: Decode, tokens: seq<Token>, k: nat, n: nat)
    requires k <= n <= |tokens| && EmittedAfter(decode, tokens, k).None?
    ensures EmittedAfter(decode, tokens, n).None?
  {
    if k < n {
      EmittedStuck(decode, tokens, k, n - 1);
    }
  }

  // ---------- IncrementalDecoder ----------

  class IncrementalDecoder {
    const decode: Decode
    var ids: seq<Token>
    var emitted: string
    /** The concatenation of all text returned so far. */
    ghost var output: string

    ghost predicate Valid()
      reads this
    {
      output == emitted
    }

    constructor (decode: Decode)
      ensures Valid() && this.decode == decode && ids == [] && output == ""
    {
      this.decode, ids, emitted, output := decode, [], "", "";
    }

    method Push(token: Token) returns (r: Option<string>)
      requires Valid()
      modifies this
      ensures Valid() && ids == old(ids) + [token]
      ensures r.Some? <==> decode(ids).Some? && old(output) <= Stable(decode(ids).value)
      ensures r.Some? ==> output == old(output) + r.value == Stable(decode(ids).value)
      ensures r.None? ==> output == old(output)
    {
      ids := ids + [token];
      var decoded := decode(ids);
      if decoded.None? { return None; }
      var stable := Stable(decoded.value);
      if !(emitted <= stable) { return None; }
      var delta := stable[|emitted|..];
      emitted := stable;
      output := output + delta;
      return Some(delta);
    }

    method Finish() returns (r: Option<string>)
      requires Valid()
      modifies this
      ensures Valid() && ids == old(ids)
      ensures r.Some? <==> decode(ids).Some? && old(output) <= decode(ids).value
      ensures r.Some? ==> output == old(output) + r.value == decode(ids).value
      ensures r.None? ==> output == old(output)
    {
      var decoded := decode(ids);
      if decoded.None? || !(emitted <= decoded.value) { return None; }
      var delta := decoded.value[|emitted|..];
      emitted := decoded.value;
      output := output + delta;
      return Some(delta);
    }
  }

  /** Pushing all tokens and finishing: the pieces add up to the decode of all tokens, and this goes through exactly
      for the tokens that can be streamed. */
  method DecodeIncrementally(decode: Decode, tokens: seq<Token>) returns (r: Option<string>)
    ensures r == if Streamable(decode, tokens) then decode(tokens) else None
  {
    hide Stable, EmittedAfter;
    EmittedNothing(decode, tokens);
    var d := new IncrementalDecoder(decode);
    var text := "";
    for k := 0 to |tokens|
      invariant d.Valid() && d.decode == decode && d.ids == tokens[..k] && text == d.output
      invariant EmittedAfter(decode, tokens, k) == Some(d.output)
    {
      EmittedNext(decode, tokens, k, d.output);
      var delta := d.Push(tokens[k]);
      assert tokens[..k] + [tokens[k]] == tokens[..k + 1];
      if delta.None? {
        EmittedStuck(decode, tokens, k + 1, |tokens|);
        return None;
      }
      text := text + delta.value;
    }
    assert tokens[..|tokens|] == tokens;
    if decode(tokens).Some? { EmittedIsPrefix(decode, tokens); }
    var last := d.Finish();
    if last.None? { return None; }
    return Some(text + last.value);
  }

  // ---------- The channel and the backend ----------

  /** A channel to a client that may go away: accepts says which send attempts get through. */
  class Channel<T> {
    const accepts: nat -> bool
    var attempts: nat
    var delivered: seq<T>

    constructor (accepts: nat -> bool)
      ensures this.accepts == accepts && attempts == 0 && delivered == []
    {
      this.accepts, attempts, delivered := accepts, 0, [];
    }

    method Send(x: T) returns (ok: bool)
      modifies this
      ensures ok == accepts(old(attempts)) && attempts == old(attempts) + 1
      ensures delivered == old(delivered) + if ok then [x] else []
    {
      ok := accepts(attempts);
      attempts := attempts + 1;
      if ok { delivered := delivered + [x]; }
    }
  }

  datatype FinishReason = Stop | Length

  /** A generator: the tokens it would produce, its own outcome, and whether it stops at the first callback error. */
  datatype Backend = Backend(tokens: seq<Token>, outcome: Option<FinishReason>, stops: bool)

  ghost predicate AcceptsAll(accepts: nat -> bool) {
    forall k :: accepts(k)
  }

  // ---------- What a client is meant to get ----------

  /** Once a send is refused, no later one gets through. */
  ghost predicate Monotone(accepts: nat -> bool) {
    forall i: nat, j: nat :: i <= j && accepts(j) ==> accepts(i)
  }

  /** Everything in script was tried, and the client got it, or got the part before the first refused send. */
  ghost predicate Follows<T>(accepts: nat -> bool, attempts: nat, delivered: seq<T>, script: seq<T>) {
    && Monotone(accepts)
    && ((delivered == script && attempts == |script|) || (delivered <= script && Gone(accepts, attempts, delivered)))
  }

  ghost predicate Gone<T>(accepts: nat -> bool, attempts: nat, delivered: seq<T>) {
    Monotone(accepts) && |delivered| <= attempts && !accepts(|delivered|)
  }

  lemma {:induction false} FollowsSend<T>(accepts: nat -> bool, attempts: nat, delivered: seq<T>, script: seq<T>, x: T)
    requires Follows(accepts, attempts, delivered, script)
    ensures var d := delivered + if accepts(attempts) then [x] else [];
      && Follows(accepts, attempts + 1, d, script + [x])
      && (!accepts(attempts) ==> Gone(accepts, attempts + 1, d) && Follows(accepts, attempts + 1, d, script))
      && (Gone(accepts, attempts, delivered) ==> !accepts(attempts))
  {
  }

  /** A client that left early has what the rest of the script would have followed. */
  lemma {:induction false} FollowsLeft<T>(accepts: nat -> bool, attempts: nat, delivered: seq<T>, part: seq<T>, script: seq<T>)
    requires Follows(accepts, attempts, delivered, part) && Gone(accepts, attempts, delivered) && part <= script
    ensures Follows(accepts, attempts, delivered, script)
  {
  }

  /** What the growth of the text from a to b adds, when it adds something. */
  function Piece(a: string, b: string): seq<string> {
    if |a| < |b| then [b[|a|..]] else []
  }

  /** How many of the first n tokens go through before an error. */
  function Progress(decode: Decode, tokens: seq<Token>, n: nat): (k: nat)
    requires n <= |tokens|
    ensures k <= n && EmittedAfter(decode, tokens, k).Some?
    ensures k < n ==> EmittedAfter(decode, tokens, k + 1).None?
  {
    if EmittedAfter(decode, tokens, n).Some? then n else Progress(decode, tokens, n - 1)
  }

  lemma {:induction false} ProgressIs(decode: Decode, tokens: seq<Token>, k: nat)
    requires k <= |tokens| && EmittedAfter(decode, tokens, k).Some?
    requires k < |tokens| ==> EmittedAfter(decode, tokens, k + 1).None?
    ensures Progress(decode, tokens, |tokens|) == k
  {
    var p := Progress(decode, tokens, |tokens|);
    if p < k {
      EmittedStuck(decode, tokens, p + 1, k);
    } else if k < p {
      EmittedStuck(decode, tokens, k + 1, p);
    }
  }

  /** The pieces of text that the first k tokens add. */
  function Pieces(decode: Decode, tokens: seq<Token>, k: nat): seq<string>
    requires k <= |tokens| && EmittedAfter(decode, tokens, k).Some?
  {
    if k == 0 then []
    else
      Pieces(decode, tokens, k - 1)
      + Piece(EmittedAfter(decode, tokens, k - 1).value, EmittedAfter(decode, tokens, k).value)
  }

  lemma {:induction false} PiecesGrow(decode: Decode, tokens: seq<Token>, k: nat, n: nat)
    requires k <= n <= |tokens| && EmittedAfter(decode, tokens, n).Some?
    ensures EmittedAfter(decode, tokens, k).Some? && Pieces(decode, tokens, k) <= Pieces(decode, tokens, n)
  {
    if k < n {
      PiecesGrow(decode, tokens, k, n - 1);
    }
  }

  /** The pieces in the form a stream sends them. */
  function Each<T>(form: string -> T, pieces: seq<string>): seq<T> {
    seq(|pieces|, i requires 0 <= i < |pieces| => form(pieces[i]))
  }

  lemma {:induction false} EachPiece<T>(form: string -> T, head: seq<T>, a: string, b: string)
    requires a <= b
    ensures head + Each(form, Piece(a, b)) == if a == b then head else head + [form(b[|a|..])]
  {
    assert a == b <==> |a| == |b|;
  }

  /** What follows head once the first k tokens went through. */
  function Told<T>(form: string -> T, head: seq<T>, decode: Decode, tokens: seq<Token>, k: nat): seq<T>
    requires k <= |tokens| && EmittedAfter(decode, tokens, k).Some?
  {
    head + Each(form, Pieces(decode, tokens, k))
  }

  lemma {:induction false} ToldNext<T>(form: string -> T, head: seq<T>, decode: Decode, tokens: seq<Token>, k: nat)
    requires k < |tokens| && EmittedAfter(decode, tokens, k + 1).Some?
    ensures EmittedAfter(decode, tokens, k).Some?
    ensures Told(form, head, decode, tokens, k + 1) == Told(form, head, decode, tokens, k)
      + Each(form, Piece(EmittedAfter(decode, tokens, k).value, EmittedAfter(decode, tokens, k + 1).value))
  {
    hide Piece;
  }

  lemma {:induction false} ToldNothing<T>(form: string -> T, head: seq<T>, decode: Decode, tokens: seq<Token>)
    ensures EmittedAfter(decode, tokens, 0) == Some("") && Told(form, head, decode, tokens, 0) == head
  {
  }

  lemma {:induction false} ToldMore<T>(form: string -> T, head: seq<T>, decode: Decode, tokens: seq<Token>, k: nat, n: nat)
    requires k <= n <= |tokens| && EmittedAfter(decode, tokens, k).Some? && EmittedAfter(decode, tokens, n).Some?
    ensures Told(form, head, decode, tokens, k) <= Told(form, head, decode, tokens, n)
  {
    PiecesGrow(decode, tokens, k, n);
  }

  /** A client that leaves at token k has been sent what it was meant to get up to there. */
  lemma {:induction false} LeftAtToken<T>(
    decode: Decode, tokens: seq<Token>, k: nat, accepts: nat -> bool, attempts: nat, delivered: seq<T>, head: seq<T>,
    form: string -> T)
    requires k <= |tokens| && EmittedAfter(decode, tokens, k).Some? && Gone(accepts, attempts, delivered)
    requires Follows(accepts, attempts, delivered, Told(form, head, decode, tokens, k))
    ensures Follows(accepts, attempts, delivered, Told(form, head, decode, tokens, Progress(decode, tokens, |tokens|)))
  {
    hide Follows, Gone, Told, EmittedAfter;
    var n := Progress(decode, tokens, |tokens|);
    if n < k { EmittedStuck(decode, tokens, n + 1, k); }
    ToldMore(form, head, decode, tokens, k, n);
    FollowsLeft(accepts, attempts, delivered, Told(form, head, decode, tokens, k), Told(form, head, decode, tokens, n));
  }

  // ---------- Chat completions ----------

  datatype Frame = Role | Delta(text: string) | Finish(reason: FinishReason, completionTokens: nat) | Error | Done

  const AsFrame: string -> Frame := t => Delta(t)

  /** A whole chat stream: the role, the text in pieces, and the finish frame, or the error where the tokens, the
      decoder or the backend fail; then the closing mark. */
  function ChatScript(decode: Decode, backend: Backend): seq<Frame> {
    var tokens := backend.tokens;
    var k := Progress(decode, tokens, |tokens|);
    var head := Told(AsFrame, [Role], decode, tokens, k);
    if k == |tokens| && backend.outcome.Some? && decode(tokens).Some? then
      head + Each(AsFrame, Piece(EmittedAfter(decode, tokens, k).value, decode(tokens).value))
      + [Finish(backend.outcome.value, |tokens|), Done]
    else
      head + [Error, Done]
  }

  /** The text a client puts together. */
  function Text(frames: seq<Frame>): string {
    if frames == [] then ""
    else
      var f := frames[|frames| - 1];
      Text(frames[..|frames| - 1]) + if f.Delta? then f.text else ""
  }

  ghost predicate Finished(frames: seq<Frame>) {
    exists i :: 0 <= i < |frames| && frames[i].Finish?
  }

  lemma {:induction false} TextAppend(frames: seq<Frame>, f: Frame)
    ensures Text(frames + [f]) == Text(frames) + if f.Delta? then f.text else ""
  {
    assert (frames + [f])[..|frames|] == frames;
  }

  lemma {:induction false} FinishedAppend(frames: seq<Frame>, f: Frame)
    ensures Finished(frames + [f]) <==> Finished(frames) || f.Finish?
  {
    var all := frames + [f];
    if Finished(frames) {
      var i :| 0 <= i < |frames| && frames[i].Finish?;
      assert all[i].Finish?;
    }
    assert all[|frames|] == f;
  }

  /** The non-streaming reply: the content, or None for a server error. */
  method RespondNonStreaming(decode: Decode, backend: Backend) returns (content: Option<string>)
    ensures content == if backend.outcome.Some? then decode(backend.tokens) else None
  {
    var ids: seq<Token> := [];
    for k := 0 to |backend.tokens|
      invariant ids == backend.tokens[..k]
    {
      ids := ids + [backend.tokens[k]];
    }
    if backend.outcome.None? { return None; }
    assert ids == backend.tokens;
    return decode(ids);
  }

  class ChatStream {
    const decode: Decode
    const channel: Channel<Frame>
    var ids: seq<Token>
    var emitted: string

    ghost predicate Valid()
      reads this, channel
    {
      Text(channel.delivered) == emitted && !Finished(channel.delivered)
    }

    /** The client is being sent the script, or left on the way. */
    ghost predicate On(script: seq<Frame>)
      reads channel
    {
      Follows(channel.accepts, channel.attempts, channel.delivered, script)
    }

    ghost predicate Left()
      reads channel
    {
      Gone(channel.accepts, channel.attempts, channel.delivered)
    }

    constructor (decode: Decode, channel: Channel<Frame>)
      requires channel.delivered == []
      ensures Valid() && this.decode == decode && this.channel == channel && ids == [] && emitted == ""
    {
      this.decode, this.channel, ids, emitted := decode, channel, [], "";
    }

    /** One send; script is what was to be sent before. */
    method SendFrame(f: Frame, ghost script: seq<Frame>) returns (ok: bool)
      modifies channel
      ensures ok == channel.accepts(old(channel.attempts))
      ensures Text(channel.delivered) == Text(old(channel.delivered)) + if ok && f.Delta? then f.text else ""
      ensures Finished(channel.delivered) <==> Finished(old(channel.delivered)) || (ok && f.Finish?)
      ensures old(On(script)) ==> On(script + [f]) && (!ok ==> Left() && On(script)) && (old(Left()) ==> !ok)
    {
      hide Follows, Gone;
      TextAppend(channel.delivered, f);
      FinishedAppend(channel.delivered, f);
      if On(script) { FollowsSend(channel.accepts, channel.attempts, channel.delivered, script, f); }
      ok := channel.Send(f);
      if !ok { assert channel.delivered == old(channel.delivered); }
    }

    /** The token callback. */
    method OnToken(token: Token, ghost script: seq<Frame>) returns (ok: bool)
      requires Valid()
      modifies this, channel
      ensures Valid() && ids == old(ids) + [token]
      ensures ok ==> decode(ids).Some? && old(emitted) <= emitted == Stable(decode(ids).value)
      ensures !ok ==> emitted == old(emitted)
      ensures !ok && AcceptsAll(channel.accepts) ==> decode(ids).None? || !(old(emitted) <= Stable(decode(ids).value))
      ensures old(On(script)) && ok ==> On(script + Each(AsFrame, Piece(old(emitted), emitted)))
      ensures old(On(script)) && !ok ==>
        On(script) && (Left() || decode(ids).None? || !(old(emitted) <= Stable(decode(ids).value)))
    {
      hide Text, Finished, Follows, Gone;
      ids := ids + [token];
      var decoded := decode(ids);
      if decoded.None? { return false; }
      var stable := Stable(decoded.value);
      if !(emitted <= stable) { return false; }
      var delta := stable[|emitted|..];
      EachPiece(AsFrame, script, emitted, stable);
      if delta != "" {
        var sent := SendFrame(Delta(delta), script);
        if !sent { return false; }
      }
      emitted := stable;
      return true;
    }

    /** backend.generate with the callback. */
    method Generate(backend: Backend, ghost head: seq<Frame>) returns (r: Option<FinishReason>)
      requires Valid() && ids == [] && emitted == ""
      modifies this, channel
      ensures Valid()
      ensures r.Some? && backend.stops ==>
        ids == backend.tokens && EmittedAfter(decode, backend.tokens, |backend.tokens|) == Some(emitted)
      ensures r.None? && AcceptsAll(channel.accepts) && backend.outcome.Some? ==>
        EmittedAfter(decode, backend.tokens, |backend.tokens|).None?
      ensures r.Some? ==> r == backend.outcome
      ensures backend.stops && old(On(head)) ==>
        var n := |backend.tokens|;
        var k := Progress(decode, backend.tokens, n);
        && On(Told(AsFrame, head, decode, backend.tokens, k))
        && (r.Some? ==> k == n) && (r.None? ==> Left() || k < n || backend.outcome.None?)
    {
      hide Text, Finished, Follows, Gone, Each, Piece, Pieces, Told, Progress, Stable, AcceptsAll, EmittedAfter;
      var tokens := backend.tokens;
      ToldNothing(AsFrame, head, decode, tokens);
      for k := 0 to |tokens|
        invariant Valid()
        invariant backend.stops ==> ids == tokens[..k] && EmittedAfter(decode, tokens, k) == Some(emitted)
        invariant backend.stops && old(On(head)) ==> On(Told(AsFrame, head, decode, tokens, k))
      {
        if backend.stops { EmittedNext(decode, tokens, k, emitted); }
        var ok := OnToken(tokens[k], if backend.stops then Told(AsFrame, head, decode, tokens, k) else []);
        assert tokens[..k] + [tokens[k]] == tokens[..k + 1];
        if ok && backend.stops { ToldNext(AsFrame, head, decode, tokens, k); }
        if !ok && backend.stops {
          if AcceptsAll(channel.accepts) { EmittedStuck(decode, tokens, k + 1, |tokens|); }
          if old(On(head)) {
            if Left() {
              LeftAtToken(decode, tokens, k, channel.accepts, channel.attempts, channel.delivered, head, AsFrame);
            } else {
              ProgressIs(decode, tokens, k);
            }
          }
          return None;
        }
      }
      assert tokens[..|tokens|] == tokens;
      if backend.stops { ProgressIs(decode, tokens, |tokens|); }
      return backend.outcome;
    }

    /** The error frame and the closing mark. */
    method Fail(ghost head: seq<Frame>)
      modifies channel
      ensures Text(channel.delivered) == Text(old(channel.delivered))
      ensures Finished(channel.delivered) <==> Finished(old(channel.delivered))
      ensures old(On(head)) ==> On(head + [Error, Done]) && (old(Left()) ==> On(head))
    {
      hide Text, Finished, Follows, Gone;
      var ok := SendFrame(Error, head);
      ghost var left := old(On(head) && Left());
      ok := SendFrame(Done, if left then head else head + [Error]);
      assert head + [Error] + [Done] == head + [Error, Done];
      if left { LeftBefore(head, head + [Error, Done]); }
    }

    /** The last piece of text, the finish frame and the closing mark. */
    method Complete(reason: FinishReason, whole: string, last: string, ghost head: seq<Frame>)
      requires Valid()
      modifies channel
      ensures Finished(channel.delivered) ==> Text(channel.delivered) == emitted + last
      ensures AcceptsAll(channel.accepts) ==> Finished(channel.delivered)
      ensures old(On(head)) && whole == emitted + last ==>
        On(head + Each(AsFrame, Piece(emitted, whole)) + [Finish(reason, |ids|), Done])
    {
      hide Text, Finished, Follows, Gone, Each;
      ghost var f, text := Finish(reason, |ids|), if last == "" then head else head + [Delta(last)];
      if whole == emitted + last { EachPiece(AsFrame, head, emitted, whole); }
      assert text + [f] + [Done] == text + [f, Done];
      if last != "" {
        var ok := SendFrame(Delta(last), head);
        if !ok {
          if old(On(head)) { LeftBefore(text, text + [f, Done]); }
          return;
        }
      }
      var ok := SendFrame(Finish(reason, |ids|), text);
      if ok {
        ok := SendFrame(Done, text + [f]);
      } else if old(On(head)) {
        LeftBefore(text + [f], text + [f, Done]);
      }
    }

    /** The producer.  tail is the final slice of the decoded text behind the emitted bytes, None where it panics. */
    method Produce(backend: Backend, tail: (string, string) -> Option<string>)
      requires Valid() && ids == [] && emitted == ""
      requires forall d: string, e: string :: e <= d ==> tail(d, e) == Some(d[|e|..])
      modifies this, channel
      // A stream that completes says what the single reply says.
      ensures Finished(channel.delivered) && backend.stops ==>
        && Streamable(decode, backend.tokens) && backend.outcome.Some?
        && Text(channel.delivered) == decode(backend.tokens).value
      // It completes whenever the tokens can be streamed and nobody goes away.
      ensures backend.stops && backend.outcome.Some? && AcceptsAll(channel.accepts) && Streamable(decode, backend.tokens)
        ==> Finished(channel.delivered)
      // From a fresh channel on, the client gets the whole stream frame by frame, or the frames before it went away.
      ensures backend.stops && old(On([])) ==> On(ChatScript(decode, backend))
    {
      hide Text, Finished, Follows, Gone, Each, Piece, Told, Progress, EmittedAfter, Stable;
      ghost var scripted := backend.stops && On([]);
      ghost var tokens, n := backend.tokens, |backend.tokens|;
      ghost var k := Progress(decode, tokens, n);
      ghost var head := Told(AsFrame, [Role], decode, tokens, k);
      assert [] + [Role] == [Role];
      var ok := SendFrame(Role, []);
      if !ok {
        if scripted {
          ToldNothing(AsFrame, [Role], decode, tokens);
          ToldMore(AsFrame, [Role], decode, tokens, 0, k);
          LeftBefore([Role], ChatScript(decode, backend));
        }
        return;
      }
      var finish := Generate(backend, [Role]);
      if scripted && Left() { LeftBefore(head, ChatScript(decode, backend)); }
      if finish.None? {
        Fail(if scripted && Left() then ChatScript(decode, backend) else head);
        return;
      }
      var decoded := decode(ids);
      if decoded.None? {
        Fail(head);
        return;
      }
      if backend.stops { EmittedIsPrefix(decode, backend.tokens); }
      var last := tail(decoded.value, emitted);
      if last.None? { return; }
      Complete(finish.value, decoded.value, last.value, head);
    }

    lemma {:induction false} LeftBefore(part: seq<Frame>, script: seq<Frame>)
      requires On(part) && Left() && part <= script
      ensures On(script)
    {
      hide Follows, Gone;
      FollowsLeft(channel.accepts, channel.attempts, channel.delivered, part, script);
    }
  }

  // ---------- Responses ----------

  datatype Kind =
    | Created | InProgress | ItemAdded | PartAdded
    | TextDelta(text: string)
    | TextDone(whole: string) | PartDone(whole: string)
    | ItemDone(whole: string, reason: FinishReason) | Completed(whole: string, reason: FinishReason, completionTokens: nat)
    | Failed

  datatype Event = Event(kind: Kind, number: u64)

  function Kinds(events: seq<Event>): seq<Kind> {
    seq(|events|, i requires 0 <= i < |events| => events[i].kind)
  }

  lemma {:induction false} KindsAppend(events: seq<Event>, e: Event)
    ensures Kinds(events + [e]) == Kinds(events) + [e.kind]
  {
  }

  const AsKind: string -> Kind := t => TextDelta(t)

  const OPENING := [Created, InProgress, ItemAdded, PartAdded]

  lemma {:induction false} OpeningParts(one: seq<Kind>, two: seq<Kind>, three: seq<Kind>, all: seq<Kind>)
    requires one == [Created] && two == [Created, InProgress] && three == [Created, InProgress, ItemAdded]
    requires all == OPENING
    ensures [] + [Created] == one <= all && one + [InProgress] == two <= all
    ensures two + [ItemAdded] == three <= all && three + [PartAdded] == all
  {
  }

  /** The events that close a response. */
  function ClosingKinds(whole: string, reason: FinishReason, n: nat): seq<Kind> {
    [TextDone(whole), PartDone(whole), ItemDone(whole, reason), Completed(whole, reason, n)]
  }

  /** A whole response stream: four opening events, the text in pieces, and the closing events or the failure. */
  function ResponseScript(decode: Decode, backend: Backend): seq<Kind> {
    var tokens := backend.tokens;
    var k := Progress(decode, tokens, |tokens|);
    var head := Told(AsKind, OPENING, decode, tokens, k);
    if k == |tokens| && backend.outcome.Some? && decode(tokens).Some? then
      head + Each(AsKind, Piece(EmittedAfter(decode, tokens, k).value, decode(tokens).value))
      + ClosingKinds(decode(tokens).value, backend.outcome.value, |tokens|)
    else
      head + [Failed]
  }

  /** The events are numbered 0, 1, 2, ... without gaps. */
  ghost predicate Numbered(events: seq<Event>) {
    forall i :: 0 <= i < |events| ==> events[i].number == i % U64_LIMIT
  }

  function DeltaText(k: Kind): string {
    if k.TextDelta? then k.text else ""
  }

  function EventText(events: seq<Event>): string {
    if events == [] then ""
    else EventText(events[..|events| - 1]) + DeltaText(events[|events| - 1].kind)
  }

  /** Every closing event repeats the whole text. */
  ghost predicate ClosingText(events: seq<Event>, whole: string) {
    forall i :: 0 <= i < |events| ==>
      match events[i].kind
      case TextDone(w) => w == whole
      case PartDone(w) => w == whole
      case ItemDone(w, _) => w == whole
      case Completed(w, _, _) => w == whole
      case _ => true
  }

  ghost predicate Open(k: Kind) {
    !k.TextDone? && !k.PartDone? && !k.ItemDone? && !k.Completed?
  }

  ghost predicate NoneClosed(events: seq<Event>) {
    forall i :: 0 <= i < |events| ==> Open(events[i].kind)
  }

  ghost predicate HasCompleted(events: seq<Event>) {
    exists i :: 0 <= i < |events| && events[i].kind.Completed?
  }

  lemma {:induction false} AppendEvent(events: seq<Event>, e: Event)
    ensures EventText(events + [e]) == EventText(events) + DeltaText(e.kind)
    ensures HasCompleted(events + [e]) <==> HasCompleted(events) || e.kind.Completed?
    ensures Numbered(events) && e.number == |events| % U64_LIMIT ==> Numbered(events + [e])
    ensures NoneClosed(events + [e]) <==> NoneClosed(events) && Open(e.kind)
  {
    var all := events + [e];
    assert all[..|events|] == events && all[|events|] == e;
    assert forall i :: 0 <= i < |events| ==> all[i] == events[i];
  }

  lemma {:induction false} NoneClosedYet(events: seq<Event>, whole: string)
    requires NoneClosed(events)
    ensures ClosingText(events, whole) && !HasCompleted(events)
  {
  }

  lemma {:induction false} AppendClosing(events: seq<Event>, e: Event, whole: string)
    requires ClosingText(events, whole) && ClosingText([e], whole)
    ensures ClosingText(events + [e], whole)
  {
    var all := events + [e];
    assert [e][0] == e;
    assert forall i :: 0 <= i < |events| ==> all[i] == events[i];
  }

  class ResponseStream {
    const decode: Decode
    const channel: Channel<Event>
    var ids: seq<Token>
    var emitted: string
    var sequence: u64

    ghost predicate NumbersOk()
      reads this, channel
    {
      Numbered(channel.delivered) && sequence == |channel.delivered| % U64_LIMIT
    }

    ghost predicate Valid()
      reads this, channel
    {
      NumbersOk() && EventText(channel.delivered) == emitted && NoneClosed(channel.delivered)
    }

    /** The client is being sent the script, or left on the way. */
    ghost predicate On(script: seq<Kind>)
      reads channel
    {
      Follows(channel.accepts, channel.attempts, Kinds(channel.delivered), script)
    }

    ghost predicate Left()
      reads channel
    {
      Gone(channel.accepts, channel.attempts, Kinds(channel.delivered))
    }

    lemma {:induction false} LeftBefore(part: seq<Kind>, script: seq<Kind>)
      requires On(part) && Left() && part <= script
      ensures On(script)
    {
      hide Follows, Gone;
      FollowsLeft(channel.accepts, channel.attempts, Kinds(channel.delivered), part, script);
    }

    constructor (decode: Decode, channel: Channel<Event>)
      requires channel.delivered == []
      ensures Valid() && this.decode == decode && this.channel == channel && ids == [] && emitted == ""
    {
      this.decode, this.channel, ids, emitted, sequence := decode, channel, [], "", 0;
    }

    /** Send an event under the current number; the number moves on only when the send got through.  script is what
        was to be sent before. */
    method SendEvent(kind: Kind, ghost script: seq<Kind>) returns (ok: bool)
      requires NumbersOk()
      modifies this`sequence, channel
      ensures NumbersOk()
      ensures ok == channel.accepts(old(channel.attempts))
      ensures channel.delivered ==
        if ok then old(channel.delivered) + [Event(kind, old(sequence))] else old(channel.delivered)
      ensures EventText(channel.delivered) == EventText(old(channel.delivered)) + if ok then DeltaText(kind) else ""
      ensures NoneClosed(old(channel.delivered)) && Open(kind) ==> NoneClosed(channel.delivered)
      ensures HasCompleted(channel.delivered) <==> HasCompleted(old(channel.delivered)) || (ok && kind.Completed?)
      ensures old(On(script)) ==> On(script + [kind]) && (!ok ==> Left() && On(script)) && (old(Left()) ==> !ok)
    {
      hide Numbered, EventText, NoneClosed, HasCompleted, Open, DeltaText, Follows, Gone, Kinds;
      KindsAppend(channel.delivered, Event(kind, sequence));
      ghost var kinds := Kinds(channel.delivered);
      if On(script) { FollowsSend(channel.accepts, channel.attempts, kinds, script, kind); }
      assert kinds + [] == kinds;
      AppendEvent(channel.delivered, Event(kind, sequence));
      ok := channel.Send(Event(kind, sequence));
      if ok {
        sequence := (sequence + 1) % U64_LIMIT;
      } else {
        assert channel.delivered == old(channel.delivered);
      }
    }

    method OnToken(token: Token, ghost script: seq<Kind>) returns (ok: bool)
      requires Valid()
      modifies this, channel
      ensures Valid() && ids == old(ids) + [token]
      ensures ok ==> decode(ids).Some? && old(emitted) <= emitted == Stable(decode(ids).value)
      ensures !ok ==> emitted == old(emitted)
      ensures !ok && AcceptsAll(channel.accepts) ==> decode(ids).None? || !(old(emitted) <= Stable(decode(ids).value))
      ensures old(On(script)) && ok ==> On(script + Each(AsKind, Piece(old(emitted), emitted)))
      ensures old(On(script)) && !ok ==>
        On(script) && (Left() || decode(ids).None? || !(old(emitted) <= Stable(decode(ids).value)))
    {
      hide Numbered, EventText, NoneClosed, HasCompleted, Follows, Gone, Each;
      ids := ids + [token];
      var decoded := decode(ids);
      if decoded.None? { return false; }
      var stable := Stable(decoded.value);
      if !(emitted <= stable) { return false; }
      var delta := stable[|emitted|..];
      EachPiece(AsKind, script, emitted, stable);
      if delta != "" {
        var sent := SendEvent(TextDelta(delta), script);
        if !sent { return false; }
      }
      emitted := stable;
      return true;
    }

    method Generate(backend: Backend, ghost head: seq<Kind>) returns (r: Option<FinishReason>)
      requires Valid() && ids == [] && emitted == ""
      modifies this, channel
      ensures Valid()
      ensures r.Some? && backend.stops ==>
        ids == backend.tokens && EmittedAfter(decode, backend.tokens, |backend.tokens|) == Some(emitted)
      ensures r.None? && AcceptsAll(channel.accepts) && backend.outcome.Some? ==>
        EmittedAfter(decode, backend.tokens, |backend.tokens|).None?
      ensures r.Some? ==> r == backend.outcome
      ensures backend.stops && old(On(head)) ==>
        var n := |backend.tokens|;
        var k := Progress(decode, backend.tokens, n);
        && On(Told(AsKind, head, decode, backend.tokens, k))
        && (r.Some? ==> k == n) && (r.None? ==> Left() || k < n || backend.outcome.None?)
    {
      hide Numbered, EventText, NoneClosed, HasCompleted, Kinds, Follows, Gone, Each, Piece, Pieces, Told, Progress, Stable,
        AcceptsAll, EmittedAfter;
      var tokens := backend.tokens;
      ToldNothing(AsKind, head, decode, tokens);
      for k := 0 to |tokens|
        invariant Valid()
        invariant backend.stops ==> ids == tokens[..k] && EmittedAfter(decode, tokens, k) == Some(emitted)
        invariant backend.stops && old(On(head)) ==> On(Told(AsKind, head, decode, tokens, k))
      {
        if backend.stops { EmittedNext(decode, tokens, k, emitted); }
        var ok := OnToken(tokens[k], if backend.stops then Told(AsKind, head, decode, tokens, k) else []);
        assert tokens[..k] + [tokens[k]] == tokens[..k + 1];
        if ok && backend.stops { ToldNext(AsKind, head, decode, tokens, k); }
        if !ok && backend.stops {
          if AcceptsAll(channel.accepts) { EmittedStuck(decode, tokens, k + 1, |tokens|); }
          if old(On(head)) {
            if Left() {
              LeftAtToken(decode, tokens, k, channel.accepts, channel.attempts, Kinds(channel.delivered), head, AsKind);
            } else {
              ProgressIs(decode, tokens, k);
            }
          }
          return None;
        }
      }
      assert tokens[..|tokens|] == tokens;
      if backend.stops { ProgressIs(decode, tokens, |tokens|); }
      return backend.outcome;
    }

    /** The four opening events. */
    method Opening() returns (ok: bool)
      requires Valid() && emitted == ""
      modifies this`sequence, channel
      ensures Valid()
      ensures AcceptsAll(channel.accepts) ==> ok
      ensures old(On([])) ==> On(OPENING) && (!ok ==> Left())
    {
      hide Numbered, EventText, NoneClosed, HasCompleted, Follows, Gone, Kinds;
      ghost var on, one, two, three := On([]), [Created], [Created, InProgress], [Created, InProgress, ItemAdded];
      OpeningParts(one, two, three, OPENING);
      ok := SendEvent(Created, []);
      if !ok { if on { LeftBefore([], OPENING); } return; }
      ok := SendEvent(InProgress, one);
      if !ok { if on { LeftBefore(one, OPENING); } return; }
      ok := SendEvent(ItemAdded, two);
      if !ok { if on { LeftBefore(two, OPENING); } return; }
      ok := SendEvent(PartAdded, three);
    }

    /** The loop over the closing events. */
    method Closing(whole: string, reason: FinishReason, ghost head: seq<Kind>)
      requires NumbersOk() && NoneClosed(channel.delivered)
      modifies this`sequence, channel
      ensures NumbersOk() && ClosingText(channel.delivered, whole)
      ensures EventText(channel.delivered) == EventText(old(channel.delivered))
      ensures AcceptsAll(channel.accepts) ==> HasCompleted(channel.delivered)
      ensures old(On(head)) ==> On(head + ClosingKinds(whole, reason, |ids|))
    {
      hide Numbered, EventText, NoneClosed, HasCompleted, ClosingText, Follows, Gone, Kinds;
      NoneClosedYet(channel.delivered, whole);
      var kinds := [TextDone(whole), PartDone(whole), ItemDone(whole, reason), Completed(whole, reason, |ids|)];
      assert head + kinds[..0] == head && kinds[..4] == kinds;
      for i := 0 to 4
        invariant NumbersOk() && ClosingText(channel.delivered, whole)
        invariant EventText(channel.delivered) == EventText(old(channel.delivered))
        invariant i == 4 ==> HasCompleted(channel.delivered)
        invariant old(On(head)) ==> On(head + kinds[..i])
      {
        AppendClosing(channel.delivered, Event(kinds[i], sequence), whole) by { OneClosing(kinds[i], sequence, whole); }
        assert head + kinds[..i] + [kinds[i]] == head + kinds[..i + 1];
        var ok := SendEvent(kinds[i], head + kinds[..i]);
        if !ok {
          assert !AcceptsAll(channel.accepts);
          if old(On(head)) { LeftBefore(head + kinds[..i], head + kinds); }
          return;
        }
      }
    }

    /** The last piece of text and the closing events. */
    method Complete(reason: FinishReason, whole: string, last: string, ghost head: seq<Kind>)
      requires Valid()
      modifies this`sequence, channel
      ensures NumbersOk()
      ensures HasCompleted(channel.delivered) ==>
        EventText(channel.delivered) == emitted + last && ClosingText(channel.delivered, whole)
      ensures AcceptsAll(channel.accepts) ==> HasCompleted(channel.delivered)
      ensures old(On(head)) && whole == emitted + last ==>
        On(head + Each(AsKind, Piece(emitted, whole)) + ClosingKinds(whole, reason, |ids|))
    {
      hide Numbered, EventText, NoneClosed, HasCompleted, ClosingText, Follows, Gone, Kinds, Each, ClosingKinds;
      ghost var text := if last == "" then head else head + [TextDelta(last)];
      if whole == emitted + last { EachPiece(AsKind, head, emitted, whole); }
      NoneClosedYet(channel.delivered, whole);
      if last != "" {
        var ok := SendEvent(TextDelta(last), head);
        NoneClosedYet(channel.delivered, whole);
        if !ok {
          if old(On(head)) { LeftBefore(text, text + ClosingKinds(whole, reason, |ids|)); }
          return;
        }
      }
      Closing(whole, reason, text);
    }

    /** The producer.  In every run what is delivered is numbered without gaps. */
    method Produce(backend: Backend, tail: (string, string) -> Option<string>)
      requires Valid() && ids == [] && emitted == ""
      requires forall d: string, e: string :: e <= d ==> tail(d, e) == Some(d[|e|..])
      modifies this, channel
      ensures Numbered(channel.delivered)
      ensures HasCompleted(channel.delivered) && backend.stops ==>
        && Streamable(decode, backend.tokens) && backend.outcome.Some?
        && EventText(channel.delivered) == decode(backend.tokens).value
        && ClosingText(channel.delivered, decode(backend.tokens).value)
      ensures backend.stops && backend.outcome.Some? && AcceptsAll(channel.accepts) && Streamable(decode, backend.tokens)
        ==> HasCompleted(channel.delivered)
      // From a fresh channel on, the client gets the whole stream event by event, or the events before it went away.
      ensures backend.stops && old(On([])) ==> On(ResponseScript(decode, backend))
    {
      hide Numbered, EventText, NoneClosed, HasCompleted, ClosingText, Follows, Gone, Kinds, Each, Piece, Told, Progress, ClosingKinds;
      ghost var scripted := backend.stops && On([]);
      ghost var tokens, n := backend.tokens, |backend.tokens|;
      ghost var k := Progress(decode, tokens, n);
      ghost var head := Told(AsKind, OPENING, decode, tokens, k);
      var ok := Opening();
      NoneClosedYet(channel.delivered, "");
      if !ok {
        if scripted {
          ToldNothing(AsKind, OPENING, decode, tokens);
          ToldMore(AsKind, OPENING, decode, tokens, 0, k);
          LeftBefore(OPENING, ResponseScript(decode, backend));
        }
        return;
      }
      var finish := Generate(backend, OPENING);
      NoneClosedYet(channel.delivered, "");
      if finish.None? {
        if scripted && Left() { LeftBefore(head, ResponseScript(decode, backend)); }
        ok := SendEvent(Failed, if scripted && Left() then ResponseScript(decode, backend) else head);
        return;
      }
      var decoded := decode(ids);
      if decoded.None? {
        ok := SendEvent(Failed, head);
        return;
      }
      if backend.stops { EmittedIsPrefix(decode, backend.tokens); }
      var last := tail(decoded.value, emitted);
      if last.None? { return; }
      Complete(finish.value, decoded.value, last.value, head);
    }
  }

  lemma {:induction false} OneClosing(kind: Kind, number: u64, whole: string)
    requires kind.TextDone? || kind.PartDone? || kind.ItemDone? || kind.Completed?
    requires kind.whole == whole
    ensures ClosingText([Event(kind, number)], whole)
  {
  }
}
