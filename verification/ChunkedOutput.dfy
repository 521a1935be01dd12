/**
 The chunked output builder of libs/restinio/message_builders.hpp, and a decoder for the
 chunked transfer coding written after section 4.1.3 of RFC 7230.
 */
module ChunkedOutput {
  import opened Sequences
  import opened Wrappers
  import opened WriteGroups

  const CRLF := "\r\n"
  const LAST_CHUNK := "0\r\n\r\n"

  // ------------------------------------------------------------- hexadecimal

  function HexDigit(d: nat): char
    requires d < 16
  {
    if d < 10 then '0' + d as char else 'A' + (d - 10) as char
  }

  /** The {:X} format: no leading zeros. */
  function ToHex(n: nat): (r: string)
    ensures r != []
  {
    if n < 16 then [HexDigit(n)] else ToHex(n / 16) + [HexDigit(n % 16)]
  }

  predicate IsHex(c: char) {
    '0' <= c <= '9' || 'A' <= c <= 'F' || 'a' <= c <= 'f'
  }

  function HexValue(c: char): nat
    requires IsHex(c)
  {
    if c <= '9' then (c - '0') as nat
    else if c <= 'F' then (c - 'A') as nat + 10
    else (c - 'a') as nat + 10
  }

  function ParseHex(s: string): nat
    requires forall c :: c in s ==> IsHex(c)
  {
    if s == [] then 0 else 16 * ParseHex(s[..|s| - 1]) + HexValue(s[|s| - 1])
  }

  lemma {:induction false} HexRoundTrip(n: nat)
    ensures forall c :: c in ToHex(n) ==> IsHex(c)
    ensures ParseHex(ToHex(n)) == n
    decreases n
  {
    if n < 16 {
      assert ParseHex([]) == 0;
      assert ToHex(n)[..0] == [];
    } else {
      HexRoundTrip(n / 16);
      assert ToHex(n)[..|ToHex(n)| - 1] == ToHex(n / 16);
    }
  }

  /** Upper case, and no leading zero. */
  lemma {:induction false} HexIsPlain(n: nat)
    ensures forall i :: 0 <= i < |ToHex(n)| ==> '0' <= ToHex(n)[i] <= '9' || 'A' <= ToHex(n)[i] <= 'F'
    ensures n != 0 ==> ToHex(n)[0] != '0'
    ensures n == 0 ==> ToHex(n) == "0"
  {
    if n >= 16 { HexIsPlain(n / 16); }
  }

  // ----------------------------------------------------------------- decoder

  /** The number of leading hexadecimal digits. */
  function HexRun(s: string): (k: nat)
    ensures k <= |s| && (forall i :: 0 <= i < k ==> IsHex(s[i])) && (k < |s| ==> !IsHex(s[k]))
  {
    if s == [] || !IsHex(s[0]) then 0 else 1 + HexRun(s[1..])
  }

  datatype Decoded = Decoded(body: string, rest: string)

  /** Reads chunks up to and including the last-chunk and an empty trailer. */
  function Decode(s: string): Option<Decoded>
    decreases |s|
  {
    var k := HexRun(s);
    if k == 0 || !(CRLF <= s[k..]) then None
    else
      var size, after := ParseHex(s[..k]), s[k + 2..];
      if size == 0 then
        if CRLF <= after then Some(Decoded([], after[2..])) else None
      else if |after| < size + 2 || after[size..size + 2] != CRLF then None
      else
        match Decode(after[size + 2..])
        case None => None
        case Some(d) => Some(Decoded(after[..size] + d.body, d.rest))
  }

  /** One chunk on the wire. */
  function Chunk(data: string): string {
    ToHex(|data|) + CRLF + data + CRLF
  }

  function Chunks(chunks: seq<string>): string {
    if chunks == [] then [] else Chunk(chunks[0]) + Chunks(chunks[1..])
  }

  lemma {:induction false} HexRunStops(digits: string, tail: string)
    requires forall c :: c in digits ==> IsHex(c)
    requires tail != [] && !IsHex(tail[0])
    ensures HexRun(digits + tail) == |digits|
    decreases |digits|
  {
    if digits == [] {
      assert digits + tail == tail;
    } else {
      assert (digits + tail)[1..] == digits[1..] + tail;
      HexRunStops(digits[1..], tail);
    }
  }

  lemma {:induction false} DecodeLast(tail: string)
    ensures Decode(LAST_CHUNK + tail) == Some(Decoded([], tail))
  {
    var s := LAST_CHUNK + tail;
    HexRoundTrip(0);
    assert ToHex(0) == "0";
    assert s == "0" + ("\r\n\r\n" + tail);
    HexRunStops("0", "\r\n\r\n" + tail);
    assert s[..1] == "0" && s[1..] == CRLF + (CRLF + tail);
    assert s[3..] == CRLF + tail;
    assert (CRLF + tail)[2..] == tail;
  }

  lemma {:induction false} DecodeStep(s: string, size: nat, after: string)
    requires HexRun(s) > 0 && CRLF <= s[HexRun(s)..] && ParseHex(s[..HexRun(s)]) == size > 0
    requires s[HexRun(s) + 2..] == after && size + 2 <= |after| && after[size..size + 2] == CRLF
    ensures Decode(s) ==
            match Decode(after[size + 2..]) case None => None case Some(d) => Some(Decoded(after[..size] + d.body, d.rest))
  {
    hide ParseHex, HexRun;
  }

  lemma {:induction false} DecodeOne(data: string, tail: string)
    requires data != []
    ensures Decode(Chunk(data) + tail) ==
            match Decode(tail) case None => None case Some(d) => Some(Decoded(data + d.body, d.rest))
  {
    hide ToHex, ParseHex, HexRun, Decode;
    var s, hex := Chunk(data) + tail, ToHex(|data|);
    HexRoundTrip(|data|);
    assert s == hex + (CRLF + data + CRLF + tail);
    HexRunStops(hex, CRLF + data + CRLF + tail);
    var k := |hex|;
    assert s[..k] == hex && s[k..] == CRLF + (data + CRLF + tail);
    var after := s[k + 2..];
    assert after == data + CRLF + tail;
    assert after[..|data|] == data && after[|data|..|data| + 2] == CRLF && after[|data| + 2..] == tail;
    DecodeStep(s, |data|, after);
  }

  /** Any sequence of non-empty chunks decodes to its data, consuming exactly the coding. */
  lemma {:induction false} DecodeChunks(chunks: seq<string>, tail: string)
    requires forall i :: 0 <= i < |chunks| ==> chunks[i] != []
    ensures Decode(Chunks(chunks) + LAST_CHUNK + tail) == Some(Decoded(Concat(chunks), tail))
    decreases |chunks|
  {
    if chunks == [] {
      assert Chunks(chunks) + LAST_CHUNK + tail == LAST_CHUNK + tail;
      DecodeLast(tail);
    } else {
      var rest := Chunks(chunks[1..]) + LAST_CHUNK + tail;
      assert Chunks(chunks) + LAST_CHUNK + tail == Chunk(chunks[0]) + rest;
      DecodeChunks(chunks[1..], tail);
      DecodeOne(chunks[0], rest);
    }
  }

  lemma {:induction false} ChunksAppend(a: seq<string>, b: seq<string>)
    ensures Chunks(a + b) == Chunks(a) + Chunks(b)
    decreases |a|
  {
    if a == [] {
      assert a + b == b;
    } else {
      assert (a + b)[1..] == a[1..] + b;
      ChunksAppend(a[1..], b);
    }
  }

  // ----------------------------------------------------------------- builder

  datatype Emission = Emission(isFinal: bool, wg: WriteGroup)

  datatype Builder = Builder(chunks: seq<string>, headerSent: bool, connected: bool, sent: seq<Emission>)

  datatype Response = Response(header: string, statusLineSize: nat)

  /** Size line and data of every chunk; the CRLF that ends a chunk opens the next size line. */
  function ChunkBufs(chunks: seq<string>): seq<Item> {
    if chunks == [] then []
    else
      var init, last := chunks[..|chunks| - 1], chunks[|chunks| - 1];
      ChunkBufs(init) + [Buffer((if init == [] then "" else CRLF) + ToHex(|last|) + CRLF), Buffer(last)]
  }

  lemma {:induction false} NoChunks()
    ensures ChunkBufs([]) == []
  {
  }

  lemma {:induction false} ChunkBufsStep(chunks: seq<string>, n: nat)
    requires n < |chunks|
    ensures ChunkBufs(chunks[..n + 1]) ==
            (ChunkBufs(chunks[..n]) + [Buffer((if n == 0 then "" else CRLF) + ToHex(|chunks[n]|) + CRLF)]) + [Buffer(chunks[n])]
  {
    hide ToHex;
    assert chunks[..n + 1][..n] == chunks[..n];
  }

  function Appendix(chunks: seq<string>, addZeroChunk: bool): string {
    (if chunks == [] then "" else CRLF) + (if addZeroChunk then LAST_CHUNK else "")
  }

  function Bufs(r: Response, b: Builder, addZeroChunk: bool): seq<Item> {
    var appendix := Appendix(b.chunks, addZeroChunk);
    (if b.headerSent then [] else [Buffer(r.header)]) + ChunkBufs(b.chunks)
    + (if appendix == "" then [] else [Buffer(appendix)])
  }

  function SendReady(r: Response, b: Builder, isFinal: bool, notificator: Option<Callback>): Builder {
    var bufs := Bufs(r, b, isFinal);
    var wg := WriteGroup(bufs, if b.headerSent then 0 else r.statusLineSize, notificator);
    Builder([], true, b.connected,
            if bufs != [] || notificator.Some? then b.sent + [Emission(isFinal, wg)] else b.sent)
  }

  datatype Op = AppendChunk(data: string) | Flush(notificator: Option<Callback>) | Done(notificator: Option<Callback>)

  /** One call on the builder; done() on a builder that is done throws and changes nothing. */
  function Apply(r: Response, b: Builder, op: Op): Builder {
    match op
    case AppendChunk(data) => if data == [] then b else b.(chunks := b.chunks + [data])
    case Flush(n) => if b.connected then SendReady(r, b, false, n) else b
    case Done(n) => if b.connected then SendReady(r, b, true, n).(connected := false) else b
  }

  const NEW_BUILDER := Builder([], false, true, [])

  function ApplyAll(r: Response, ops: seq<Op>): Builder {
    if ops == [] then NEW_BUILDER else Apply(r, ApplyAll(r, ops[..|ops| - 1]), ops[|ops| - 1])
  }

  // ---------------------------------------------------------------- theorems

  function Bytes(items: seq<Item>): string {
    if items == [] then []
    else Bytes(items[..|items| - 1]) + (if items[|items| - 1].Buffer? then items[|items| - 1].data else "")
  }

  lemma {:induction false} BytesAppend(a: seq<Item>, b: seq<Item>)
    ensures Bytes(a + b) == Bytes(a) + Bytes(b)
    decreases |b|
  {
    if b == [] {
      assert a + b == a;
    } else {
      assert (a + b)[..|a + b| - 1] == a + b[..|b| - 1];
      BytesAppend(a, b[..|b| - 1]);
    }
  }

  /** The bytes of everything sent, in order. */
  function Wire(sent: seq<Emission>): string {
    if sent == [] then [] else Wire(sent[..|sent| - 1]) + Bytes(sent[|sent| - 1].wg.items)
  }

  /** The non-empty chunks appended before done(), in order. */
  function Appended(ops: seq<Op>): seq<string> {
    if ops == [] then []
    else
      var init, last := Appended(ops[..|ops| - 1]), ops[|ops| - 1];
      if last.AppendChunk? && last.data != [] && !IsDone(ops[..|ops| - 1]) then init + [last.data] else init
  }

  predicate IsDone(ops: seq<Op>) {
    exists i :: 0 <= i < |ops| && ops[i].Done?
  }

  lemma {:induction false} BytesOne(a: Item)
    requires a.Buffer?
    ensures Bytes([a]) == a.data
  {
    assert [a][..0] == [];
    assert Bytes([]) + a.data == a.data;
  }

  lemma {:induction false} BytesSnoc(items: seq<Item>, a: Item)
    requires a.Buffer?
    ensures Bytes(items + [a]) == Bytes(items) + a.data
  {
    BytesAppend(items, [a]);
    BytesOne(a);
  }

  lemma {:induction false} ChunksSnoc(chunks: seq<string>, last: string)
    ensures Chunks(chunks + [last]) == Chunks(chunks) + Chunk(last)
    ensures Concat(chunks + [last]) == Concat(chunks) + last
  {
    ChunksAppend(chunks, [last]);
    ConcatSnoc(chunks, last);
    assert [last][1..] == [];
    assert Chunk(last) + [] == Chunk(last);
  }

  lemma {:induction false} LineOfChunk(before: string, opening: string, size: string, data: string)
    ensures (before + (opening + size + CRLF)) + data + CRLF == (before + opening) + (size + CRLF + data + CRLF)
  {
  }

  lemma {:induction false} ChunkBufsBytes(chunks: seq<string>)
    ensures Bytes(ChunkBufs(chunks)) + (if chunks == [] then "" else CRLF) == Chunks(chunks)
    decreases |chunks|
  {
    hide Bytes, Chunks, ToHex;
    if chunks == [] {
      NoBytes();
    } else {
      var init, last := chunks[..|chunks| - 1], chunks[|chunks| - 1];
      var opening := if init == [] then "" else CRLF;
      var line := opening + ToHex(|last|) + CRLF;
      ChunkBufsBytes(init);
      assert chunks == init + [last];
      ChunksSnoc(init, last);
      var before := ChunkBufs(init);
      assert before + [Buffer(line), Buffer(last)] == (before + [Buffer(line)]) + [Buffer(last)];
      BytesSnoc(before, Buffer(line));
      BytesSnoc(before + [Buffer(line)], Buffer(last));
      LineOfChunk(Bytes(before), opening, ToHex(|last|), last);
    }
  }

  lemma {:induction false} NoBytes()
    ensures Bytes([]) == [] && Chunks([]) == [] && Concat<char>([]) == []
  {
  }

  /** What one send puts on the wire: the header if it is the first, the chunks, the last-chunk if it is final. */
  lemma {:induction false} BufsBytes(r: Response, b: Builder, isFinal: bool)
    ensures Bytes(Bufs(r, b, isFinal))
         == (if b.headerSent then "" else r.header) + Chunks(b.chunks) + (if isFinal then LAST_CHUNK else "")
  {
    hide Bytes, Chunks, ChunkBufs;
    var head := if b.headerSent then [] else [Buffer(r.header)];
    var headBytes := if b.headerSent then "" else r.header;
    var zero := if isFinal then LAST_CHUNK else "";
    var appendix := Appendix(b.chunks, isFinal);
    var bufs := head + ChunkBufs(b.chunks);
    NoBytes();
    BytesOne(Buffer(r.header));
    BytesAppend(head, ChunkBufs(b.chunks));
    ChunkBufsBytes(b.chunks);
    var closing := if b.chunks == [] then "" else CRLF;
    assert Bytes(Bufs(r, b, isFinal)) == Bytes(bufs) + appendix by {
      if appendix == "" {
        assert Bufs(r, b, isFinal) == bufs;
      } else {
        BytesSnoc(bufs, Buffer(appendix));
      }
    }
    assert (headBytes + Bytes(ChunkBufs(b.chunks))) + (closing + zero)
        == headBytes + (Bytes(ChunkBufs(b.chunks)) + closing) + zero;
  }

  lemma {:induction false} WireSnoc(sent: seq<Emission>, e: Emission)
    ensures Wire(sent + [e]) == Wire(sent) + Bytes(e.wg.items)
  {
    assert (sent + [e])[..|sent|] == sent;
  }

  /** Sending adds the header once, the pending chunks, and the last-chunk when final. */
  lemma {:induction false} SendBytes(r: Response, b: Builder, isFinal: bool, n: Option<Callback>)
    ensures Wire(SendReady(r, b, isFinal, n).sent)
         == Wire(b.sent) + (if b.headerSent then "" else r.header) + Chunks(b.chunks) + (if isFinal then LAST_CHUNK else "")
  {
    hide Bytes, Chunks, Bufs, Wire;
    var bufs := Bufs(r, b, isFinal);
    BufsBytes(r, b, isFinal);
    NoBytes();
    if bufs != [] || n.Some? {
      WireSnoc(b.sent, Emission(isFinal, WriteGroup(bufs, if b.headerSent then 0 else r.statusLineSize, n)));
    } else {
      assert Wire(b.sent) + [] == Wire(b.sent);
    }
  }

  /** What the builder has put on the wire so far, wherever the flushes fell. */
  ghost predicate ProgressOf(r: Response, b: Builder, appended: seq<string>, isDone: bool) {
    && (b.connected <==> !isDone)
    && (forall i :: 0 <= i < |appended| ==> appended[i] != [])
    && (b.headerSent <==> b.sent != [])
    && (b.connected ==>
          && |b.chunks| <= |appended|
          && b.chunks == appended[|appended| - |b.chunks|..]
          && Wire(b.sent) == (if b.headerSent then r.header else "") + Chunks(appended[..|appended| - |b.chunks|])
          && (!b.headerSent ==> b.chunks == appended)
          && (forall k :: 0 <= k < |b.sent| ==> !b.sent[k].isFinal))
    && (!b.connected ==>
          && Wire(b.sent) == r.header + Chunks(appended) + LAST_CHUNK
          && b.sent != []
          && (forall k :: 0 <= k < |b.sent| ==> (b.sent[k].isFinal <==> k == |b.sent| - 1)))
    && (forall k :: 0 <= k < |b.sent| ==> b.sent[k].wg.statusLineSize == if k == 0 then r.statusLineSize else 0)
  }

  ghost predicate Progress(r: Response, ops: seq<Op>) {
    ProgressOf(r, ApplyAll(r, ops), Appended(ops), IsDone(ops))
  }

  lemma {:induction false} SentTotal(r: Response, b: Builder, appended: seq<string>, isFinal: bool, n: Option<Callback>)
    requires ProgressOf(r, b, appended, false)
    ensures Wire(SendReady(r, b, isFinal, n).sent) == r.header + Chunks(appended) + (if isFinal then LAST_CHUNK else "")
  {
    hide Chunks, Wire, SendReady;
    SendBytes(r, b, isFinal, n);
    var cut := |appended| - |b.chunks|;
    var zero := if isFinal then LAST_CHUNK else "";
    if b.headerSent {
      ChunksAppend(appended[..cut], b.chunks);
      assert appended == appended[..cut] + b.chunks;
      Reassociate(r.header, Chunks(appended[..cut]), Chunks(b.chunks), zero);
    } else {
      NoBytes();
      assert appended[..cut] == [];
      assert Wire(b.sent) + r.header == r.header;
    }
  }

  lemma {:induction false} Reassociate(a: string, b: string, c: string, d: string)
    ensures ((a + b) + "") + c + d == a + (b + c) + d
  {
  }

  lemma {:induction false} SendShape(r: Response, b: Builder, isFinal: bool, n: Option<Callback>) returns (e: Emission)
    ensures var b' := SendReady(r, b, isFinal, n);
            && b'.chunks == [] && b'.headerSent && b'.connected == b.connected
            && (isFinal || !b.headerSent ==> b'.sent != b.sent)
            && (b'.sent == b.sent || b'.sent == b.sent + [e])
            && e.isFinal == isFinal && e.wg.statusLineSize == if b.headerSent then 0 else r.statusLineSize
  {
    hide ChunkBufs;
    var bufs := Bufs(r, b, isFinal);
    assert isFinal ==> Appendix(b.chunks, isFinal) != "";
    assert isFinal || !b.headerSent ==> bufs != [];
    var b' := SendReady(r, b, isFinal, n);
    e := Emission(isFinal, WriteGroup(bufs, if b.headerSent then 0 else r.statusLineSize, n));
    if bufs != [] || n.Some? {
      assert b'.sent == b.sent + [e];
      assert |b'.sent| != |b.sent|;
    }
  }

  lemma {:induction false} SentFacts(r: Response, b: Builder, appended: seq<string>, e: Emission)
    requires ProgressOf(r, b, appended, false)
    requires e.wg.statusLineSize == if b.headerSent then 0 else r.statusLineSize
    ensures var sent := b.sent + [e];
            && (forall k :: 0 <= k < |sent| ==> sent[k].wg.statusLineSize == if k == 0 then r.statusLineSize else 0)
            && (e.isFinal ==> forall k :: 0 <= k < |sent| ==> (sent[k].isFinal <==> k == |sent| - 1))
            && (!e.isFinal ==> forall k :: 0 <= k < |sent| ==> !sent[k].isFinal)
  {
  }

  lemma {:induction false} SendProgress(r: Response, b: Builder, appended: seq<string>, isFinal: bool, n: Option<Callback>)
    requires ProgressOf(r, b, appended, false)
    ensures ProgressOf(r, SendReady(r, b, isFinal, n).(connected := !isFinal), appended, isFinal)
  {
    hide Chunks, Wire, SendReady;
    SentTotal(r, b, appended, isFinal, n);
    var e := SendShape(r, b, isFinal, n);
    SentFacts(r, b, appended, e);
    assert appended[|appended|..] == [] && appended[..|appended|] == appended;
    assert r.header + Chunks(appended) + "" == r.header + Chunks(appended);
  }

  lemma {:induction false} AppendProgress(r: Response, b: Builder, appended: seq<string>, data: string)
    requires ProgressOf(r, b, appended, false) && data != []
    ensures ProgressOf(r, b.(chunks := b.chunks + [data]), appended + [data], false)
  {
    hide Chunks, Wire;
    var cut := |appended| - |b.chunks|;
    assert (appended + [data])[..cut] == appended[..cut];
    assert (appended + [data])[cut..] == b.chunks + [data];
  }

  lemma {:induction false} ChunksAreIgnored(r: Response, b: Builder, appended: seq<string>, chunks: seq<string>)
    requires ProgressOf(r, b, appended, true)
    ensures ProgressOf(r, b.(chunks := chunks), appended, true)
  {
  }

  lemma {:induction false} IsDoneSnoc(ops: seq<Op>)
    requires ops != []
    ensures IsDone(ops) <==> IsDone(ops[..|ops| - 1]) || ops[|ops| - 1].Done?
  {
    var init := ops[..|ops| - 1];
    if IsDone(init) {
      var i :| 0 <= i < |init| && init[i].Done?;
      assert ops[i].Done?;
    }
    if IsDone(ops) && !ops[|ops| - 1].Done? {
      var i :| 0 <= i < |ops| && ops[i].Done?;
      assert init[i].Done?;
    }
  }

  lemma {:induction false} ProgressAlways(r: Response, ops: seq<Op>)
    ensures Progress(r, ops)
    decreases |ops|
  {
    hide Chunks, Wire, SendReady, ProgressOf, IsDone;
    if ops == [] {
      NewProgress(r);
      assert !IsDone(ops) by { NotDoneYet(); }
    } else {
      var init, last := ops[..|ops| - 1], ops[|ops| - 1];
      ProgressAlways(r, init);
      IsDoneSnoc(ops);
      var b, appended := ApplyAll(r, init), Appended(init);
      ConnectedUnlessDone(r, init);
      if !b.connected {
        if last.AppendChunk? { ChunksAreIgnored(r, b, appended, b.chunks + [last.data]); }
      } else if last.AppendChunk? {
        if last.data != [] { AppendProgress(r, b, appended, last.data); }
      } else {
        SendProgress(r, b, appended, last.Done?, last.notificator);
        var e := SendShape(r, b, last.Done?, last.notificator);
      }
    }
  }

  lemma {:induction false} NewProgress(r: Response)
    ensures ProgressOf(r, NEW_BUILDER, [], false)
  {
    NoBytes();
    assert Wire([]) == [];
  }

  lemma {:induction false} NotDoneYet()
    ensures !IsDone([])
  {
  }

  lemma {:induction false} ConnectedUnlessDone(r: Response, ops: seq<Op>)
    requires Progress(r, ops)
    ensures ApplyAll(r, ops).connected <==> !IsDone(ops)
  {
  }

  /**
   Once done() was called, the bytes after the header are a chunked coding that decodes to
   everything appended, with the one last-chunk at the very end; exactly the last group is
   marked final, and only the first carries the status line.
   */
  lemma {:induction false} BodyDecodes(r: Response, ops: seq<Op>)
    requires IsDone(ops)
    ensures var sent := ApplyAll(r, ops).sent;
            && r.header <= Wire(sent)
            && Decode(Wire(sent)[|r.header|..]) == Some(Decoded(Concat(Appended(ops)), []))
            && sent != []
            && (forall k :: 0 <= k < |sent| ==> (sent[k].isFinal <==> k == |sent| - 1))
            && (forall k :: 0 <= k < |sent| ==> sent[k].wg.statusLineSize == if k == 0 then r.statusLineSize else 0)
  {
    hide Chunks, Wire, Decode, Appended, ApplyAll, Concat;
    ProgressAlways(r, ops);
    ConnectedUnlessDone(r, ops);
    var appended := Appended(ops);
    DecodeChunks(appended, []);
    var body := Chunks(appended) + LAST_CHUNK;
    assert body + [] == body;
    var wire := Wire(ApplyAll(r, ops).sent);
    assert wire == r.header + body;
    assert wire[|r.header|..] == body;
  }

  lemma {:induction false} ApplyAllSnoc(r: Response, ops: seq<Op>, op: Op)
    ensures ApplyAll(r, ops + [op]) == Apply(r, ApplyAll(r, ops), op)
  {
    assert (ops + [op])[..|ops|] == ops;
  }

  /** Until done() a chunk is only kept: appending sends nothing. */
  lemma {:induction false} AppendSendsNothing(r: Response, ops: seq<Op>, data: string)
    ensures ApplyAll(r, ops + [Op.AppendChunk(data)]).sent == ApplyAll(r, ops).sent
  {
    ApplyAllSnoc(r, ops, Op.AppendChunk(data));
  }

  /** A flush, like done(), puts everything appended so far on the wire, behind the header, and leaves nothing pending. */
  lemma {:induction false} SendingLeavesNothingPending(r: Response, ops: seq<Op>, op: Op)
    requires !IsDone(ops) && !op.AppendChunk?
    ensures var b := ApplyAll(r, ops + [op]);
            && b.chunks == []
            && Wire(b.sent) == r.header + Chunks(Appended(ops)) + (if op.Done? then LAST_CHUNK else "")
  {
    hide IsDone, Chunks, Wire, SendReady, ProgressOf, Appended;
    ProgressAlways(r, ops);
    ConnectedUnlessDone(r, ops);
    ApplyAllSnoc(r, ops, op);
    var b := ApplyAll(r, ops);
    SentTotal(r, b, Appended(ops), op.Done?, op.notificator);
    var e := SendShape(r, b, op.Done?, op.notificator);
  }

  /**
   It hands over one group, final for done() only and with its callback; a flush with nothing to
   send, that is with the header sent, no chunk pending and no callback, hands over none.
   */
  lemma {:induction false} SendingHandsOverOneGroup(r: Response, ops: seq<Op>, op: Op) returns (wg: WriteGroup)
    requires !IsDone(ops) && !op.AppendChunk?
    ensures var b, sent := ApplyAll(r, ops), ApplyAll(r, ops + [op]).sent;
            && wg.notificator == op.notificator
            && sent == if op.Flush? && b.sent != [] && b.chunks == [] && op.notificator.None? then b.sent
                       else b.sent + [Emission(op.Done?, wg)]
  {
    hide IsDone, Chunks, Wire, ProgressOf, Appended, ChunkBufs;
    ProgressAlways(r, ops);
    ConnectedUnlessDone(r, ops);
    HeaderSentIff(r, ops);
    ApplyAllSnoc(r, ops, op);
    var b := ApplyAll(r, ops);
    wg := WriteGroup(Bufs(r, b, op.Done?), if b.headerSent then 0 else r.statusLineSize, op.notificator);
    BufsAreEmptyIff(r, b, op.Done?);
  }

  lemma {:induction false} HeaderSentIff(r: Response, ops: seq<Op>)
    requires Progress(r, ops)
    ensures ApplyAll(r, ops).headerSent <==> ApplyAll(r, ops).sent != []
  {
  }

  lemma {:induction false} BufsAreEmptyIff(r: Response, b: Builder, isFinal: bool)
    ensures Bufs(r, b, isFinal) == [] <==> b.headerSent && b.chunks == [] && !isFinal
  {
    if b.chunks != [] { assert ChunkBufs(b.chunks) != []; }
  }

  /** After done() nothing is handed over any more. */
  lemma {:induction false} NothingAfterDone(r: Response, ops: seq<Op>, op: Op)
    requires IsDone(ops)
    ensures ApplyAll(r, ops + [op]).sent == ApplyAll(r, ops).sent
  {
    hide IsDone, SendReady, ProgressOf;
    ProgressAlways(r, ops);
    ConnectedUnlessDone(r, ops);
    ApplyAllSnoc(r, ops, op);
  }

  // ------------------------------------------------------------------- class

  class ChunkedResponseBuilder {
    const response: Response
    var chunks: seq<string>
    var headerWasSent: bool
    var connected: bool
    var sent: seq<Emission>

    constructor (response: Response)
      ensures this.response == response && State() == NEW_BUILDER
    {
      this.response := response;
      chunks, headerWasSent, connected, sent := [], false, true, [];
    }

    function State(): Builder
      reads this
    {
      Builder(chunks, headerWasSent, connected, sent)
    }

    method AppendChunk(chunk: string)
      modifies this
      ensures State() == Apply(response, old(State()), Op.AppendChunk(chunk))
    {
      if chunk != [] {
        chunks := chunks + [chunk];
      }
    }

    method Flush(wscb: Option<Callback>)
      modifies this
      ensures State() == Apply(response, old(State()), Op.Flush(wscb))
    {
      if connected {
        SendReadyData(false, wscb);
      }
    }

    /** False when done() was called before: the source throws. */
    method Done(wscb: Option<Callback>) returns (ok: bool)
      modifies this
      ensures State() == Apply(response, old(State()), Op.Done(wscb)) && ok == old(connected)
    {
      ok := connected;
      if connected {
        connected := false;
        SendReadyData(true, wscb);
      }
    }

    method SendReadyData(isFinal: bool, wscb: Option<Callback>)
      modifies this
      ensures State() == SendReady(response, old(State()), isFinal, wscb)
    {
      var statusLineSize := if headerWasSent then 0 else response.statusLineSize;
      var bufs := CreateBufs(isFinal);
      headerWasSent := true;
      if bufs != [] || wscb.Some? {
        sent := sent + [Emission(isFinal, WriteGroup(bufs, statusLineSize, wscb))];
      }
    }

    method CreateBufs(addZeroChunk: bool) returns (bufs: seq<Item>)
      modifies this`chunks
      ensures chunks == [] && bufs == Bufs(response, old(State()), addZeroChunk)
    {
      hide ToHex, ChunkBufs;
      NoChunks();
      bufs := if headerWasSent then [] else [Buffer(response.header)];
      ghost var head := bufs;
      var prefix := "";
      var n := 0;
      while n < |chunks|
        invariant 0 <= n <= |chunks| && chunks == old(chunks)
        invariant bufs == head + ChunkBufs(chunks[..n])
        invariant prefix == if n == 0 then "" else CRLF
      {
        var chunk := chunks[n];
        ChunkBufsStep(chunks, n);
        bufs := bufs + [Buffer(prefix + ToHex(|chunk|) + CRLF)];
        // the size line of the next chunk begins by ending this one
        prefix := CRLF;
        bufs := bufs + [Buffer(chunk)];
        n := n + 1;
      }
      assert chunks[..n] == chunks && bufs + [] == bufs;
      var appendix := "";
      if chunks != [] {
        appendix := appendix + CRLF;
      }
      if addZeroChunk {
        appendix := appendix + LAST_CHUNK;
      }
      assert appendix == Appendix(chunks, addZeroChunk);
      if appendix != "" {
        bufs := bufs + [Buffer(appendix)];
      }
      chunks := [];
    }
  }
}
