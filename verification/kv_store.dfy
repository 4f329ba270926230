/** The disk KV store: eviction in place, storing under a byte budget, longest-prefix lookup and loading. */
module KvStore {
  import opened Words
  import opened KvEvict

  /** A file of the cache directory.  An unreadable one is skipped by refresh but takes space. */
  datatype File = File(entry: Entry, readable: bool)

  function Readable(files: seq<File>): seq<Entry> {
    if files == [] then []
    else
      var f := files[|files| - 1];
      Readable(files[..|files| - 1]) + if f.readable then [f.entry] else []
  }

  ghost predicate PathsUnique(files: seq<File>) {
    forall i, j :: 0 <= i < j < |files| ==> files[i].entry.path != files[j].entry.path
  }

  ghost predicate AllReadable(files: seq<File>) {
    forall i :: 0 <= i < |files| ==> files[i].readable
  }

  /** The bytes of every file in the directory. */
  ghost function Bytes(files: seq<File>): nat {
    Total(seq(|files|, i requires 0 <= i < |files| => files[i].entry))
  }

  function Unlinked(files: seq<File>, path: string): seq<File> {
    if files == [] then []
    else
      var rest := Unlinked(files[..|files| - 1], path);
      var f := files[|files| - 1];
      if f.entry.path == path then rest else rest + [f]
  }

  /** The directory after the header of a file was rewritten with a new time of use and hit count; its size stays. */
  function Touched(files: seq<File>, path: string, now: Option<u64>, hits: u32): (r: seq<File>)
    ensures |r| == |files|
    ensures forall i :: 0 <= i < |files| ==>
      r[i].entry.path == files[i].entry.path && r[i].entry.fileSize == files[i].entry.fileSize
    ensures forall i :: 0 <= i < |files| && (now.None? || files[i].entry.path != path) ==> r[i] == files[i]
    ensures forall i :: 0 <= i < |files| && now.Some? && files[i].entry.path == path ==>
      r[i].entry.lastUsed == now.value && r[i].entry.hits == hits
  {
    seq(|files|, i requires 0 <= i < |files| =>
      if now.Some? && files[i].entry.path == path
      then files[i].(entry := files[i].entry.(lastUsed := now.value, hits := hits)) else files[i])
  }

  // ---------- File sizes ----------

  const FIXED := 52

  /** kv_cache_file_size_bytes: each addition is checked against the 64-bit maximum first. */
  function FileSizeBytes(text: u64, payload: u64, trailer: u64): Option<u64> {
    var max := U64_LIMIT - 1;
    if max - FIXED < text then None
    else if max - FIXED - text < payload then None
    else if max - FIXED - text - payload < trailer then None
    else Some(FIXED + text + payload + trailer)
  }

  function BudgetRequired(file: u64): Option<u64> {
    var slack := file / 100 + if file % 100 != 0 then 1 else 0;
    if U64_LIMIT - 1 - file < slack then None else Some(file + slack)
  }

  /** kv_store_file_size_fits: the verdict, and the file size it reports. */
  function FileSizeFits(budget: u64, text: u64, payload: u64, trailer: u64): Option<u64> {
    var file :- FileSizeBytes(text, payload, trailer);
    if budget == 0 then Some(file)
    else
      var required :- BudgetRequired(file);
      if required <= budget then Some(file) else None
  }

  /** The fit test is exact: it passes when the true size fits 64 bits and, under a budget, the size and one percent
      of it rounded up stay within the budget. */
  lemma {:induction false} FitTestIsExact(budget: u64, text: u64, payload: u64, trailer: u64)
    ensures var size := 52 + text + payload + trailer;
      && (FileSizeFits(budget, text, payload, trailer).Some? <==>
          size < U64_LIMIT && (budget == 0 || 101 * size <= 100 * budget))
      && (FileSizeFits(budget, text, payload, trailer).Some? ==>
          FileSizeFits(budget, text, payload, trailer).value == size)
  {
    var size := FIXED + text + payload + trailer;
    var slack := size / 100 + if size % 100 != 0 then 1 else 0;
    assert 100 * slack >= size > 100 * slack - 100;
  }

  // ---------- Lookup ----------

  type Text = seq<bv8>

  /** What a lookup asks for.  sha is any function from bytes to names. */
  datatype Query = Query(prompt: Text, modelId: int, quantBits: int, ctxSize: int, sha: Text -> string)

  /** The cast (int)tokens: two's complement. */
  function AsInt(x: u32): int {
    if x < 0x8000_0000 then x else x - U32_LIMIT
  }

  predicate Compatible(e: Entry, q: Query, minTokens: int, rejectQuant: bool) {
    && e.textBytes <= |q.prompt|
    && AsInt(e.tokens) >= minTokens
    && e.modelId == q.modelId % 0x100
    && e.ctxSize <= q.ctxSize % U32_LIMIT
    && (rejectQuant ==> e.quantBits == q.quantBits % 0x100)
  }

  /** The entry may serve the prompt: compatible, and named by the hash of the prompt's prefix of its length. */
  predicate Serves(e: Entry, q: Query, minTokens: int, rejectQuant: bool) {
    Compatible(e, q, minTokens, rejectQuant) && q.sha(q.prompt[..e.textBytes]) == e.sha
  }

  predicate Longer(a: Entry, b: Entry) {
    a.textBytes > b.textBytes || (a.textBytes == b.textBytes && a.tokens > b.tokens)
  }

  /** best is the first entry maximal in (text bytes, tokens) among those that serve, or -1 when none does. */
  ghost predicate IsBest(es: seq<Entry>, n: nat, q: Query, minTokens: int, rejectQuant: bool, best: int)
    requires n <= |es|
  {
    if best < 0 then
      best == -1 && forall i :: 0 <= i < n ==> !Serves(es[i], q, minTokens, rejectQuant)
    else
      && best < n && Serves(es[best], q, minTokens, rejectQuant)
      && (forall i :: 0 <= i < n && Serves(es[i], q, minTokens, rejectQuant) ==> !Longer(es[i], es[best]))
      && (forall i :: 0 <= i < best && Serves(es[i], q, minTokens, rejectQuant) ==> Longer(es[best], es[i]))
  }

  /** In fields: the entry found has a text no longer than the prompt, enough tokens, the model, a context no larger than
      the session's, the quantization if that must match, and the name of the prompt's prefix; every entry like that has a
      shorter text, or the same length and no more tokens, or is the same or a later one of equal length and tokens. */
  lemma {:induction false} BestInFields(es: seq<Entry>, q: Query, minTokens: int, rejectQuant: bool, best: int, i: nat)
    requires IsBest(es, |es|, q, minTokens, rejectQuant, best) && i < |es|
    requires es[i].textBytes <= |q.prompt| && AsInt(es[i].tokens) >= minTokens
    requires es[i].modelId == q.modelId % 0x100 && es[i].ctxSize <= q.ctxSize % U32_LIMIT
    requires rejectQuant ==> es[i].quantBits == q.quantBits % 0x100
    requires es[i].sha == q.sha(q.prompt[..es[i].textBytes])
    ensures 0 <= best < |es|
    ensures es[best].textBytes <= |q.prompt| && AsInt(es[best].tokens) >= minTokens
    ensures es[best].modelId == q.modelId % 0x100 && es[best].ctxSize <= q.ctxSize % U32_LIMIT
    ensures rejectQuant ==> es[best].quantBits == q.quantBits % 0x100
    ensures es[best].sha == q.sha(q.prompt[..es[best].textBytes])
    ensures es[i].textBytes <= es[best].textBytes
    ensures es[i].textBytes == es[best].textBytes ==> es[i].tokens <= es[best].tokens
    ensures es[i].textBytes == es[best].textBytes && es[i].tokens == es[best].tokens ==> best <= i
  {
    assert Serves(es[i], q, minTokens, rejectQuant);
  }

  /** The cast keeps the value modulo 2^32 and lands in the range of a 32-bit int. */
  lemma {:induction false} AsIntIsCast(x: u32)
    ensures -0x8000_0000 <= AsInt(x) < 0x8000_0000 && (x - AsInt(x)) % U32_LIMIT == 0
  {
  }

  /** A stored text is found again by every prompt that begins with it, unless a longer one serves too. */
  lemma {:induction false} StoredTextIsFound(es: seq<Entry>, q: Query, minTokens: int, rejectQuant: bool, best: int, k: nat)
    requires IsBest(es, |es|, q, minTokens, rejectQuant, best)
    requires k < |es| && Compatible(es[k], q, minTokens, rejectQuant)
    requires exists text: Text :: text <= q.prompt && |text| == es[k].textBytes && q.sha(text) == es[k].sha
    ensures best >= 0 && es[best].textBytes >= es[k].textBytes
  {
    var text: Text :| text <= q.prompt && |text| == es[k].textBytes && q.sha(text) == es[k].sha;
    assert q.prompt[..es[k].textBytes] == text;
    assert Serves(es[k], q, minTokens, rejectQuant);
  }

  datatype Header = Header(modelId: u8, tokens: u32, textBytes: u32, hits: u32)

  /** An opened checkpoint: its header unless that is invalid, and the bytes that follow it. */
  datatype Image = Image(header: Option<Header>, body: Text)

  /** The hit count after a load of the image. */
  function HitsAfter(image: Option<Image>): u32 {
    if image.Some? && image.value.header.Some? then (image.value.header.value.hits + 1) % U32_LIMIT else 0
  }

  /** The cached text in an opened checkpoint is what a load needs it to be. */
  predicate TextOk(image: Image, e: Entry, q: Query) {
    && image.header.Some? && image.header.value.modelId == q.modelId % 0x100
    && image.header.value.textBytes <= |q.prompt|
    && image.header.value.textBytes <= |image.body|
    && var text := image.body[..image.header.value.textBytes];
      q.sha(text) == e.sha && q.prompt[..|text|] == text
  }

  /** How a store ends: a compatible file was there already, a new one was written, or neither. */
  datatype StoreOutcome = Kept | Written | Refused

  /** What the session did: load is what the engine's payload reader makes of an image. */
  datatype SessionEffect = Untouched | Loaded(history: seq<int>) | Invalidated

  datatype LoadResult = LoadResult(tokens: int, textBytes: nat, effective: seq<int>, session: SessionEffect)

  /** The payload loads and holds as many tokens as the header says. */
  predicate LoadReady(image: Option<Image>, e: Entry, q: Query, load: Image -> Option<seq<int>>) {
    && image.Some? && TextOk(image.value, e, q) && load(image.value).Some?
    && |load(image.value).value| == AsInt(image.value.header.value.tokens)
  }

  /** In fields: a checkpoint is ready to load when its header is valid and for the model, it holds the whole cached text,
      that text has the entry's name and begins the prompt, and the payload loads with the announced number of tokens. */
  lemma {:induction false} LoadReadyIff(image: Option<Image>, e: Entry, q: Query, load: Image -> Option<seq<int>>, text: Text)
    requires image.Some? && image.value.header.Some? && |text| == image.value.header.value.textBytes
    requires text <= image.value.body
    ensures LoadReady(image, e, q, load) <==>
      && image.value.header.value.modelId == q.modelId % 0x100 && text <= q.prompt && q.sha(text) == e.sha
      && load(image.value).Some? && |load(image.value).value| == AsInt(image.value.header.value.tokens)
  {
    assert image.value.body[..|text|] == text;
    assert |text| <= |q.prompt| ==> (q.prompt[..|text|] == text <==> text <= q.prompt);
  }

  /** A load that succeeded took its history from this image, whose text is a true byte prefix of the prompt. */
  ghost predicate LoadedFrom(image: Option<Image>, e: Entry, q: Query, load: Image -> Option<seq<int>>, r: LoadResult) {
    && image.Some? && TextOk(image.value, e, q) && r.session.Loaded?
    && load(image.value) == Some(r.session.history)
    && r.textBytes == image.value.header.value.textBytes
    && image.value.body[..r.textBytes] <= q.prompt
  }

  // ---------- The store ----------

  class KvStore {
    const enabled: bool
    const budget: u64
    const rejectDifferentQuant: bool
    const minTokens: int
    var files: seq<File>
    var entries: seq<Entry>
    var continuedLastStoreTokens: int

    constructor (enabled: bool, budget: u64, rejectDifferentQuant: bool, minTokens: int, files: seq<File>)
      ensures this.files == files && entries == [] && continuedLastStoreTokens == 0
    {
      this.enabled, this.budget := enabled, budget;
      this.rejectDifferentQuant, this.minTokens := rejectDifferentQuant, minTokens;
      this.files, entries, continuedLastStoreTokens := files, [], 0;
    }

    method Refresh()
      modifies this`entries
      ensures entries == if enabled then Readable(files) else old(entries)
    {
      if !enabled { return; }
      entries := [];
      for i := 0 to |files|
        invariant entries == Readable(files[..i])
      {
        assert files[..i + 1][..i] == files[..i];
        if files[i].readable { entries := entries + [files[i].entry]; }
      }
      assert files[..|files|] == files;
    }

    /** The scan for the entry to drop. */
    method FindVictim(score: Entry -> real) returns (victim: nat)
      requires entries != []
      ensures victim == Victim(score, entries)
      // In fields: lowest score, then used longest ago, then first in the index.
      ensures victim < |entries| && forall i :: 0 <= i < |entries| ==>
        && score(entries[victim]) <= score(entries[i])
        && (score(entries[victim]) == score(entries[i]) ==> entries[victim].lastUsed <= entries[i].lastUsed)
        && (score(entries[victim]) == score(entries[i]) && entries[victim].lastUsed == entries[i].lastUsed ==> victim <= i)
    {
      VictimInFields(score, entries);
      victim := 0;
      var victimScore := score(entries[0]);
      assert entries[..1] == [entries[0]];
      for i := 1 to |entries|
        invariant victim < i && victimScore == score(entries[victim])
        invariant victim == Victim(score, entries[..i])
      {
        assert entries[..i + 1][..i] == entries[..i];
        var s := score(entries[i]);
        if s < victimScore || (s == victimScore && entries[i].lastUsed < entries[victim].lastUsed) {
          victim, victimScore := i, s;
        }
      }
      assert entries[..|entries|] == entries;
    }

    /** The summation loop: a 64-bit sum. */
    method SumSizes() returns (total: u64)
      ensures total == Total(entries) % U64_LIMIT
    {
      total := 0;
      for i := 0 to |entries|
        invariant total == Total(entries[..i]) % U64_LIMIT
      {
        AddModulo(Total(entries[..i]), entries[i].fileSize);
        assert entries[..i + 1][..i] == entries[..i];
        total := (total + entries[i].fileSize) % U64_LIMIT;
      }
      assert entries[..|entries|] == entries;
    }

    method Evict(extra: u64, score: Entry -> real, unlinks: Entry -> bool)
      requires PathsUnique(files)
      modifies this`files, this`entries
      ensures PathsUnique(files)
      ensures !enabled || budget == 0 || extra > budget ==> files == old(files) && entries == old(entries)
      ensures enabled && budget != 0 && extra <= budget ==>
        entries == Run(score, unlinks, Readable(old(files)), Total(Readable(old(files))) % U64_LIMIT, budget - extra).0
      ensures enabled && budget != 0 && extra <= budget && AllReadable(old(files)) && AllUnlink(unlinks) ==>
        AllReadable(files) && Readable(files) == entries
    {
      hide Run, Victim, Total, Readable, Unlinked, PathsUnique, AllReadable, WithoutAt;
      if !enabled || budget == 0 || extra > budget { return; }
      Refresh();
      var total: u64 := SumSizes();
      var target: u64 := budget - extra;
      ghost var es, sum := entries, total;
      while total > target && |entries| > 0
        invariant PathsUnique(files)
        invariant Run(score, unlinks, entries, total, target).0 == Run(score, unlinks, es, sum, target).0
        invariant AllReadable(old(files)) && AllUnlink(unlinks) ==> AllReadable(files) && Readable(files) == entries
        decreases |entries|
      {
        var victim := FindVictim(score);
        var e := entries[victim];
        RunStep(score, unlinks, entries, total, target);
        UnlinkKeepsUnique(files, e.path);
        if AllReadable(files) && Readable(files) == entries {
          UnlinkMirrors(files, victim);
        }
        if unlinks(e) {
          files := Unlinked(files, e.path);
          if total >= e.fileSize { total := total - e.fileSize; } else { total := 0; }
        } else {
          total := 0;
        }
        entries := WithoutAt(entries, victim);
      }
      RunDone(score, unlinks, entries, total, target);
    }

    method FindTextPrefix(q: Query) returns (best: int)
      modifies this`entries
      ensures entries == if enabled then Readable(files) else old(entries)
      ensures IsBest(entries, |entries|, q, minTokens, rejectDifferentQuant, best)
    {
      hide Readable;
      Refresh();
      best := -1;
      for i := 0 to |entries|
        invariant entries == if enabled then Readable(files) else old(entries)
        invariant IsBest(entries, i, q, minTokens, rejectDifferentQuant, best)
      {
        var e := entries[i];
        if e.textBytes > |q.prompt| { continue; }
        if AsInt(e.tokens) < minTokens { continue; }
        if e.modelId != q.modelId % 0x100 { continue; }
        if q.ctxSize % U32_LIMIT < e.ctxSize { continue; }
        if rejectDifferentQuant && e.quantBits != q.quantBits % 0x100 { continue; }
        if best >= 0 {
          var b := entries[best];
          if e.textBytes < b.textBytes { continue; }
          if e.textBytes == b.textBytes && e.tokens <= b.tokens { continue; }
        }
        if q.sha(q.prompt[..e.textBytes]) == e.sha { best := i; }
      }
    }

    /** open is the file system, load the engine's payload reader, tokenize its rendered-chat tokenizer.  touched is the
        time written into the header after a hit, None when that fails. */
    method TryLoadText(q: Query, open: Entry -> Option<Image>, load: Image -> Option<seq<int>>,
                       tokenize: Text -> seq<int>, touched: Option<u64>)
      returns (r: LoadResult)
      requires forall e :: open(e).Some? && open(e).value.header.Some? ==> open(e).value.header.value.tokens != 0
      modifies this`files, this`entries, this`continuedLastStoreTokens
      ensures r.tokens >= 0
      ensures r.tokens == 0 ==>
        !r.session.Loaded? && r.effective == [] && continuedLastStoreTokens == old(continuedLastStoreTokens)
      ensures r.tokens > 0 ==>
        && r.session.Loaded? && |r.session.history| == r.tokens == continuedLastStoreTokens
        && r.textBytes <= |q.prompt| && r.effective == r.session.history + tokenize(q.prompt[r.textBytes..])
      ensures r.tokens > 0 ==> exists best: nat ::
        && best < |entries| && IsBest(entries, |entries|, q, minTokens, rejectDifferentQuant, best)
        && LoadedFrom(open(entries[best]), entries[best], q, load, r)
        && files == Touched(old(files), entries[best].path, touched, HitsAfter(open(entries[best])))
      ensures forall best: nat | best < |entries| && IsBest(entries, |entries|, q, minTokens, rejectDifferentQuant, best) ::
        enabled && (q.quantBits == 2 || q.quantBits == 4) && LoadReady(open(entries[best]), entries[best], q, load)
        ==> r.tokens > 0
    {
      hide Readable, IsBest, Unlinked, Touched;
      r := LoadResult(0, 0, [], Untouched);
      if !enabled || (q.quantBits != 2 && q.quantBits != 4) { return; }
      var idx := FindTextPrefix(q);
      if idx < 0 {
        NoBest(entries, q, minTokens, rejectDifferentQuant, idx);
        return;
      }
      IndexInRange(entries, q, minTokens, rejectDifferentQuant, idx);
      forall best: nat | best < |entries| && IsBest(entries, |entries|, q, minTokens, rejectDifferentQuant, best)
        ensures best == idx
      {
        BestIsUnique(entries, q, minTokens, rejectDifferentQuant, best, idx);
      }
      var e := entries[idx];
      var source := open(e);
      if source.None? || !TextOk(source.value, e, q) { return; }
      var image := source.value;
      var header := image.header.value;
      var loaded := load(image);
      if loaded.None? { return r.(session := Invalidated); }
      if |loaded.value| != AsInt(header.tokens) {
        files := Unlinked(files, e.path);
        return r.(session := Invalidated);
      }
      continuedLastStoreTokens := |loaded.value|;
      files := Touched(files, e.path, touched, (header.hits + 1) % U32_LIMIT);
      var suffix := q.prompt[header.textBytes..];
      r := LoadResult(|loaded.value|, header.textBytes, loaded.value + tokenize(suffix), Loaded(loaded.value));
      assert LoadedFrom(open(entries[idx]), entries[idx], q, load, r);
    }

    /** Writing a new checkpoint.  payload, trailerEstimate and trailer are sizes the engine and the trailer hooks
        report; ioOk and renameOk stand for the file system. */
    method StoreNew(e: Entry, text: u32, payload: u64, trailerEstimate: u64, trailer: u64,
                    score: Entry -> real, unlinks: Entry -> bool, ioOk: bool, renameOk: bool)
      returns (ok: bool)
      requires enabled && PathsUnique(files)
      requires e.fileSize == (FIXED + text + payload + trailer) % U64_LIMIT
      modifies this`files, this`entries
      ensures PathsUnique(files)
      ensures ok ==> exists i :: 0 <= i < |files| && files[i] == File(e, true)
      ensures ok ==> e.fileSize == FIXED + text + payload + trailer
      ensures FileSizeFits(budget, text, payload, trailerEstimate).None? ==> !ok && files == old(files)
      // The budget holds afterwards, up to what the trailer grew beyond its estimate.
      ensures ok && budget != 0 && AllReadable(old(files)) && AllUnlink(unlinks) && Bytes(old(files)) < U64_LIMIT ==>
        Bytes(files) <= budget + if trailer > trailerEstimate then trailer - trailerEstimate else 0
    {
      hide Run, Total, Readable, Unlinked, PathsUnique, AllReadable, Bytes, AllUnlink;
      var estimate := FileSizeFits(budget, text, payload, trailerEstimate);
      FitTestIsExact(budget, text, payload, trailerEstimate);
      FitTestIsExact(budget, text, payload, trailer);
      if estimate.None? { return false; }
      Evict(estimate.value, score, unlinks);
      if budget != 0 && AllReadable(old(files)) && AllUnlink(unlinks) && Bytes(old(files)) < U64_LIMIT {
        BytesReadable(old(files));
        BytesReadable(files);
        FitsIff(score, unlinks, Readable(old(files)), budget - estimate.value);
        assert Bytes(files) <= budget - estimate.value;
      }
      if !ioOk { return false; }
      if FileSizeFits(budget, text, payload, trailer).None? { return false; }
      if !renameOk { return false; }
      ReplaceBytes(files, e);
      files := Unlinked(files, e.path) + [File(e, true)];
      assert files[|files| - 1] == File(e, true);
      return true;
    }

    /** The whole store: a compatible file is kept, an incompatible one is deleted first.  compatible is the comparison
        of the file's header and text with the checkpoint. */
    method Store(e: Entry, text: u32, payload: u64, trailerEstimate: u64, trailer: u64, compatible: File -> bool,
                 score: Entry -> real, unlinks: Entry -> bool, ioOk: bool, renameOk: bool)
      returns (r: StoreOutcome)
      requires PathsUnique(files)
      requires e.fileSize == (FIXED + text + payload + trailer) % U64_LIMIT
      modifies this`files, this`entries
      ensures PathsUnique(files)
      ensures !enabled ==> r.Refused? && files == old(files)
      ensures r.Kept? <==> enabled && exists f :: f in old(files) && f.entry.path == e.path && f.readable && compatible(f)
      ensures r.Kept? ==> files == old(files)
      ensures r.Written? ==> File(e, true) in files && e.fileSize == FIXED + text + payload + trailer
      ensures r.Written? && budget != 0 && AllReadable(old(files)) && AllUnlink(unlinks) && Bytes(old(files)) < U64_LIMIT ==>
        Bytes(files) <= budget + if trailer > trailerEstimate then trailer - trailerEstimate else 0
    {
      hide Unlinked, AllReadable, Bytes, AllUnlink;
      if !enabled { return Refused; }
      for i := 0 to |files|
        invariant files == old(files)
        invariant forall k :: 0 <= k < i ==> files[k].entry.path != e.path
      {
        var f := files[i];
        if f.entry.path == e.path {
          if f.readable && compatible(f) { return Kept; }
          OnlyOne(files, i);
          if f.readable && unlinks(f.entry) {
            UnlinkKeepsUnique(files, e.path);
            UnlinkKeepsReadable(files, e.path);
            BytesUnlinked(files, e.path);
            files := Unlinked(files, e.path);
          }
          break;
        }
      }
      var ok := StoreNew(e, text, payload, trailerEstimate, trailer, score, unlinks, ioOk, renameOk);
      return if ok then Written else Refused;
    }
  }

  lemma {:induction false} OnlyOne(files: seq<File>, i: nat)
    requires PathsUnique(files) && i < |files|
    ensures forall f :: f in files && f.entry.path == files[i].entry.path ==> f == files[i]
  {
  }

  lemma {:induction false} UnlinkKeepsReadable(files: seq<File>, path: string)
    ensures AllReadable(files) ==> AllReadable(Unlinked(files, path))
  {
    hide Unlinked;
    UnlinkedMembers(files, path);
    var rest := Unlinked(files, path);
    assert forall i :: 0 <= i < |rest| ==> rest[i] in rest;
  }

  lemma {:induction false} AddModulo(a: nat, b: nat)
    ensures (a % U64_LIMIT + b) % U64_LIMIT == (a + b) % U64_LIMIT
  {
  }

  lemma {:induction false} BestIsUnique(es: seq<Entry>, q: Query, minTokens: int, rejectQuant: bool, a: int, b: int)
    requires IsBest(es, |es|, q, minTokens, rejectQuant, a) && IsBest(es, |es|, q, minTokens, rejectQuant, b)
    ensures a == b
  {
  }

  lemma {:induction false} NoBest(es: seq<Entry>, q: Query, minTokens: int, rejectQuant: bool, idx: int)
    requires IsBest(es, |es|, q, minTokens, rejectQuant, idx) && idx < 0
    ensures forall best: nat | best < |es| :: !IsBest(es, |es|, q, minTokens, rejectQuant, best)
  {
  }

  lemma {:induction false} IndexInRange(es: seq<Entry>, q: Query, minTokens: int, rejectQuant: bool, best: int)
    requires IsBest(es, |es|, q, minTokens, rejectQuant, best) && best >= 0
    ensures best < |es|
  {
  }

  lemma {:induction false} UnlinkedMembers(files: seq<File>, path: string)
    ensures forall f :: f in Unlinked(files, path) <==> f in files && f.entry.path != path
  {
    if files != [] {
      var n := |files| - 1;
      UnlinkedMembers(files[..n], path);
      assert files == files[..n] + [files[n]];
    }
  }

  lemma {:induction false} UnlinkKeepsUnique(files: seq<File>, path: string)
    requires PathsUnique(files)
    ensures PathsUnique(Unlinked(files, path))
  {
    if files != [] {
      var n := |files| - 1;
      UnlinkKeepsUnique(files[..n], path);
      UnlinkedMembers(files[..n], path);
      var rest := Unlinked(files[..n], path);
      forall i | 0 <= i < |rest| ensures rest[i].entry.path != files[n].entry.path {
        assert rest[i] in files[..n];
      }
    }
  }

  /** Removing a path that no file has changes nothing; removing the path of file v takes out just that file. */
  lemma {:induction false} UnlinkOne(files: seq<File>, v: nat)
    requires PathsUnique(files) && v < |files|
    ensures Unlinked(files, files[v].entry.path) == files[..v] + files[v + 1..]
  {
    var n := |files| - 1;
    var path := files[v].entry.path;
    if v == n {
      UnlinkNone(files[..n], path);
    } else {
      UnlinkOne(files[..n], v);
      assert files[..n][..v] + files[..n][v + 1..] + [files[n]] == files[..v] + files[v + 1..];
    }
  }

  lemma {:induction false} UnlinkNone(files: seq<File>, path: string)
    requires forall i :: 0 <= i < |files| ==> files[i].entry.path != path
    ensures Unlinked(files, path) == files
  {
    if files != [] {
      UnlinkNone(files[..|files| - 1], path);
    }
  }

  lemma {:induction false} ReadableAll(files: seq<File>)
    requires AllReadable(files)
    ensures |Readable(files)| == |files| && forall i :: 0 <= i < |files| ==> Readable(files)[i] == files[i].entry
  {
    if files != [] {
      ReadableAll(files[..|files| - 1]);
    }
  }

  lemma {:induction false} BytesReadable(files: seq<File>)
    ensures AllReadable(files) ==> Bytes(files) == Total(Readable(files))
  {
    if AllReadable(files) {
      ReadableAll(files);
      hide Total, Readable;
      assert Readable(files) == seq(|files|, i requires 0 <= i < |files| => files[i].entry);
    }
  }

  /** Deleting the victim's file keeps index and directory the same. */
  lemma {:induction false} UnlinkMirrors(files: seq<File>, v: nat)
    requires PathsUnique(files) && AllReadable(files) && v < |Readable(files)|
    ensures var es := Readable(files);
      && AllReadable(Unlinked(files, es[v].path))
      && Readable(Unlinked(files, es[v].path)) == WithoutAt(es, v)
  {
    ReadableAll(files);
    UnlinkOne(files, v);
    var rest := files[..v] + files[v + 1..];
    hide Readable, Unlinked;
    ReadableAll(rest);
  }

  lemma {:induction false} BytesAppend(files: seq<File>, f: File)
    ensures Bytes(files + [f]) == Bytes(files) + f.entry.fileSize
  {
    var n := |files|;
    var all := seq(n + 1, i requires 0 <= i < n + 1 => (files + [f])[i].entry);
    assert all[..n] == seq(n, i requires 0 <= i < n => files[i].entry);
  }

  lemma {:induction false} BytesUnlinked(files: seq<File>, path: string)
    ensures Bytes(Unlinked(files, path)) <= Bytes(files)
  {
    if files != [] {
      hide Bytes;
      var n := |files| - 1;
      BytesUnlinked(files[..n], path);
      BytesAppend(files[..n], files[n]);
      assert files[..n] + [files[n]] == files;
      BytesAppend(Unlinked(files[..n], path), files[n]);
    }
  }

  /** Renaming onto a path replaces the file there. */
  lemma {:induction false} ReplaceBytes(files: seq<File>, e: Entry)
    requires PathsUnique(files)
    ensures PathsUnique(Unlinked(files, e.path) + [File(e, true)])
    ensures Bytes(Unlinked(files, e.path) + [File(e, true)]) <= Bytes(files) + e.fileSize
  {
    hide Bytes, Unlinked;
    UnlinkKeepsUnique(files, e.path);
    UnlinkedMembers(files, e.path);
    BytesUnlinked(files, e.path);
    BytesAppend(Unlinked(files, e.path), File(e, true));
    var rest := Unlinked(files, e.path);
    assert forall i :: 0 <= i < |rest| ==> rest[i] in rest;
  }
}
