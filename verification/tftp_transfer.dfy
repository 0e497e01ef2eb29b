/** The download client of udp/tftpp.c run against a server that follows section 2 of
    RFC 1350, over a network that may lose, duplicate and reorder datagrams. */
module TftpTransfer {
  import opened Bytes
  import opened TftpClient

  // ---- The server ----

  function BlockCount(source: seq<byte>): (n: nat)
    ensures n >= 1 && 512 * (n - 1) <= |source| < 512 * n
  {
    |source| / 512 + 1
  }

  /** Block k, counted from 1: 512 bytes, fewer in the last one. */
  function Block(source: seq<byte>, k: nat): (b: seq<byte>)
    requires 1 <= k <= BlockCount(source)
    ensures |b| == if k < BlockCount(source) then 512 else |source| % 512
  {
    Part(source, 512 * (k - 1), if k < BlockCount(source) then 512 * k else |source|)
  }

  /** A block number as the two bytes on the wire; it wraps around after 65535. */
  function Wire(k: nat): (w: seq<byte>)
    ensures |w| == 2
  {
    [k / 256 % 256, k % 256]
  }

  function Data(source: seq<byte>, k: nat): (d: seq<byte>)
    requires 1 <= k <= BlockCount(source)
    ensures |d| == FULL <==> k < BlockCount(source)
    ensures 4 <= |d| <= FULL
  {
    [0, 3] + Wire(k) + Block(source, k)
  }

  function Ack(k: nat): (a: seq<byte>) {
    [0, 4] + Wire(k)
  }

  predicate IsError(d: seq<byte>) {
    |d| >= 2 && d[0] == 0 && d[1] == 5
  }

  // ---- The composed system ----

  /** `toClient` and `toServer` hold every datagram sent so far, so a step may deliver any of
      them, at any time, any number of times or never. `sent` is the block the server has
      outstanding, 0 before it has seen the request; `received` is what the client has
      received, in order. */
  datatype Transfer = Transfer(
    name: seq<byte>, source: seq<byte>, client: Client, sent: nat,
    toClient: set<seq<byte>>, toServer: set<seq<byte>>, received: seq<seq<byte>>)

  datatype Step =
    | ServerAccepts                 // the request arrives
    | ServerHears(ack: seq<byte>)   // the acknowledgement of the outstanding block arrives
    | ServerFails(error: seq<byte>) // the server gives up
    | ClientTurn(input: Input)

  function Init(name: seq<byte>, source: seq<byte>): (t: Transfer)
    requires NulFree(name) && |name| + 9 <= DECLARED
  {
    Transfer(name, source, Started(name), 0, {}, {}, [])
  }

  predicate Enabled(t: Transfer, step: Step) {
    match step
    case ServerAccepts => t.sent == 0
    case ServerHears(ack) => ack in t.toServer && ack == Ack(t.sent) && 1 <= t.sent < BlockCount(t.source)
    case ServerFails(error) => IsError(error)
    case ClientTurn(input) =>
      t.client.status.Receiving? && t.client.WellFormed() && (input.Arrive? ==> input.datagram in t.toClient)
  }

  function Apply(t: Transfer, step: Step): (t': Transfer)
    requires Enabled(t, step)
  {
    match step
    case ServerAccepts => t.(sent := 1, toClient := t.toClient + {Data(t.source, 1)})
    case ServerHears(_) => t.(sent := t.sent + 1, toClient := t.toClient + {Data(t.source, t.sent + 1)})
    case ServerFails(error) => t.(toClient := t.toClient + {error})
    case ClientTurn(input) =>
      t.(client := OnInput(t.client, input),
         toServer := t.toServer + (set a | a in AcksOn(t.client, input)),
         received := if input.Arrive? then t.received + [input.datagram] else t.received)
  }

  ghost predicate IsRun(t: Transfer, steps: seq<Step>)
    decreases |steps|, 0
  {
    steps == [] || (var front := steps[..|steps| - 1];
                    IsRun(t, front) && Enabled(After(t, front), steps[|steps| - 1]))
  }

  ghost function After(t: Transfer, steps: seq<Step>): (t': Transfer)
    requires IsRun(t, steps)
    decreases |steps|, 1
  {
    if steps == [] then t else Apply(After(t, steps[..|steps| - 1]), steps[|steps| - 1])
  }

  // ---- What the file should hold ----

  /** The text of the first m blocks. */
  function Pieces(source: seq<byte>, m: nat): (s: seq<byte>)
    requires m < BlockCount(source)
  {
    if m == 0 then [] else Pieces(source, m - 1) + CText(Block(source, m))
  }

  lemma {:induction false} PiecesAreSource(source: seq<byte>, m: nat)
    requires m < BlockCount(source) && NulFree(source)
    ensures Pieces(source, m) == source[..512 * m]
  {
    if m > 0 {
      PiecesAreSource(source, m - 1);
      BlockIsText(source, m);
      Adjoin(source, 512 * (m - 1), 512 * m, Pieces(source, m - 1), CText(Block(source, m)));
    }
  }

  lemma BlockIsText(source: seq<byte>, k: nat)
    requires 1 <= k < BlockCount(source) && NulFree(source)
    ensures CText(Block(source, k)) == Part(source, 512 * (k - 1), 512 * k)
  {
    BlockNulFree(source, k);
    CTextOfNulFree(Block(source, k));
  }

  lemma BlockNulFree(source: seq<byte>, k: nat)
    requires 1 <= k <= BlockCount(source) && NulFree(source)
    ensures NulFree(Block(source, k))
  {
    var b := Block(source, k);
    NulFreeMeans(source);
    assert forall i :: 0 <= i < |b| ==> b[i] == source[512 * (k - 1) + i];
    NulFreeMeans(b);
  }

  lemma Adjoin(s: seq<byte>, i: nat, j: nat, front: seq<byte>, next: seq<byte>)
    requires i <= j <= |s| && front == s[..i] && next == Part(s, i, j)
    ensures front + next == s[..j]
  {
  }

  /** The request left in `buff` ends a text of `length` bytes written over its front. */
  predicate ResidueEnds(name: seq<byte>, length: nat) {
    length + 2 == |name| || length >= |name| + 4
  }

  /** The request left in `buff` behind a DATA datagram with `length` bytes, up to its next NUL:
      the end of the name, or the end of the mode. */
  function RequestResidue(name: seq<byte>, length: nat): (r: seq<byte>)
    ensures r == [] <==> ResidueEnds(name, length)
  {
    if length + 2 <= |name| then Part(name, length + 2, |name|)
    else if length + 1 - |name| <= 5 then Part(OCTET, length + 1 - |name|, 5)
    else []
  }

  /** The file after fputs: what `behind` holds behind the block runs on from it. */
  function Written(file: seq<byte>, b: seq<byte>, behind: seq<byte>): (f: seq<byte>)
    requires |behind| == FULL && |b| <= 512
  {
    file + CText(b + Part(behind, 4 + |b|, FULL))
  }

  /** What `memset` leaves of a full block. */
  function Cleared(d: seq<byte>): (b: seq<byte>)
    requires |d| == FULL
    ensures |b| == FULL
  {
    Overlay(Zeros(DECLARED), d)
  }

  /** The first bytes of `buff`, as many as a full block takes, once the client has received
      these datagrams: the request, or what is left of the last one. */
  function Behind(name: seq<byte>, before: seq<seq<byte>>): (b: seq<byte>)
    requires |name| + 9 <= DECLARED && (before != [] ==> |before[|before| - 1]| == FULL)
    ensures |b| == FULL
  {
    if before == [] then Started(name).buff[..FULL] else Cleared(before[|before| - 1])
  }

  /** The last of these datagrams is a full block. */
  ghost predicate EndsInFullBlock(source: seq<byte>, received: seq<seq<byte>>) {
    received != [] && exists k :: 1 <= k < BlockCount(source) && received[|received| - 1] == Data(source, k)
  }

  /** What a text of at most 127 blocks is saved with behind it, if its last block arrives after
      these datagrams: the end of the request or of the full block received just before. */
  function Residue(name: seq<byte>, source: seq<byte>, before: seq<seq<byte>>): (r: seq<byte>)
    requires |source| >= 512 ==> before != [] && |before[|before| - 1]| == FULL
  {
    if |source| < 512 then RequestResidue(name, |source|)
    else if |source| % 512 < 508 then []
    else Part(before[|before| - 1], 4 + |source| % 512, FULL)
  }

  /** The sources that reach the client's disk unchanged: text, at most 127 full blocks, and
      a last block that no earlier content of `buff` runs on from. */
  ghost predicate Intact(name: seq<byte>, source: seq<byte>) {
    && NulFree(source)
    && |source| <= 127 * 512
    && (if |source| < 512 then ResidueEnds(name, |source|) else |source| % 512 < 508)
  }

  // ---- The invariant ----

  /** `d` is one of the first `sent` blocks. */
  ghost predicate IsSentBlock(source: seq<byte>, sent: nat, d: seq<byte>)
    requires sent <= BlockCount(source)
  {
    exists k :: 1 <= k <= sent && d == Data(source, k)
  }

  /** `a` acknowledges one of the first `sent` blocks, one before `expected` if that is not stuck. */
  ghost predicate IsSentAck(sent: nat, expected: int, a: seq<byte>) {
    exists k :: 1 <= k <= sent && a == Ack(k) && (k < expected || expected == 128)
  }

  ghost predicate InFlight(t: Transfer) {
    && t.sent <= BlockCount(t.source)
    && (forall d :: d in t.toClient ==> IsError(d) || IsSentBlock(t.source, t.sent, d))
    && (forall a :: a in t.toServer ==> IsSentAck(t.sent, t.client.expected, a))
  }

  ghost predicate LockStep(t: Transfer) {
    && 1 <= t.client.expected <= 128
    && t.client.expected - 1 <= t.sent <= BlockCount(t.source)
    && (t.client.expected < 128 ==> t.sent <= t.client.expected)
  }

  ghost predicate BufferOk(name: seq<byte>, source: seq<byte>, c: Client, received: seq<seq<byte>>)
    requires c.WellFormed()
  {
    && NulFree(name) && |name| + 9 <= DECLARED
    && (received == [] ==> c == Started(name))
    && (received != [] ==> c.dLength == FULL && EndsInFullBlock(source, received))
    && c.buff[..FULL] == Behind(name, received)
  }

  /** The file of a client that has received the last block after the datagrams `before`. */
  ghost predicate SavedFile(name: seq<byte>, source: seq<byte>, before: seq<seq<byte>>, file: seq<byte>)
    requires |name| + 9 <= DECLARED
  {
    var n := BlockCount(source);
    if n > 127 then file == Pieces(source, 127)
    else
      && (if |source| < 512 then before == [] else EndsInFullBlock(source, before))
      && file == Written(Pieces(source, n - 1), Block(source, n), Behind(name, before))
  }

  /** The same, said of a text. */
  ghost predicate SavedText(name: seq<byte>, source: seq<byte>, before: seq<seq<byte>>, file: seq<byte>) {
    if |source| >= 127 * 512 then file == source[..127 * 512]
    else
      && (|source| >= 512 ==> EndsInFullBlock(source, before))
      && file == source + Residue(name, source, before)
  }

  ghost predicate BufferInv(t: Transfer) {
    t.client.WellFormed() && (t.client.status.Receiving? ==> BufferOk(t.name, t.source, t.client, t.received))
  }

  /** The file of a receiving client holds the text of the blocks before the expected one. */
  ghost predicate FileOk(source: seq<byte>, c: Client) {
    && 1 <= c.expected <= BlockCount(source)
    && NulFree(c.file) && c.file == Pieces(source, c.expected - 1)
  }

  ghost predicate FileInv(t: Transfer) {
    t.client.status.Receiving? ==> FileOk(t.source, t.client)
  }

  /** How a client that has stopped has left its file. */
  ghost predicate Outcome(t: Transfer) {
    match t.client.status
    case Receiving => true
    case Saved =>
      if t.received == [] then t.client.file == []
      else
        && NulFree(t.client.file) && |t.name| + 9 <= DECLARED
        && SavedFile(t.name, t.source, t.received[..|t.received| - 1], t.client.file)
    case Removed => t.client.file == []
  }

  ghost predicate Inv(t: Transfer) {
    && LockStep(t)
    && InFlight(t)
    && BufferInv(t)
    && FileInv(t)
  }

  // ---- One datagram at the client ----

  /** What a DATA datagram does to the client: it is taken when the low byte of its number,
      read as signed, is the expected block; the bytes it leaves in `buff` follow it. */
  ghost predicate DataEffect(c: Client, source: seq<byte>, k: nat, c': Client)
    requires c.WellFormed() && 1 <= k <= BlockCount(source)
  {
    var taken, b := SignedChar(k % 256) == c.expected, Block(source, k);
    && c'.WellFormed()
    && c'.expected == (if taken then c.expected + 1 else c.expected)
    && c'.file == (if taken then Written(c.file, b, c.buff[..FULL]) else c.file)
    && c'.status == (if k < BlockCount(source) then Receiving else Saved)
    && c'.dLength == 4 + |b|
    && (k < BlockCount(source) ==> c'.buff[..FULL] == Cleared(Data(source, k)))
  }

  lemma ClientAfterData(c: Client, source: seq<byte>, k: nat)
    requires c.WellFormed() && 1 <= k <= BlockCount(source)
    ensures AcksFor(c, Data(source, k)) == [Ack(k)]
    ensures DataEffect(c, source, k, OnDatagram(c, Data(source, k)))
  {
    var d := Data(source, k);
    assert Kept(d) == d;
    DataInBuffer(source, k, c.buff);
    assert [0, 4, Overlay(d, c.buff)[2], Overlay(d, c.buff)[3]] == Ack(k);
    if k < BlockCount(source) {
      ClearedBuffer(d, c.buff);
    }
  }

  lemma DataInBuffer(source: seq<byte>, k: nat, before: seq<byte>)
    requires |before| == RECEIVED && 1 <= k <= BlockCount(source)
    ensures var buff, b := Overlay(Data(source, k), before), Block(source, k);
            && buff[1] == 3 && buff[2] == k / 256 % 256 && buff[3] == k % 256
            && buff[4..4 + 512] == b + Part(before[..FULL], 4 + |b|, FULL)
  {
  }

  lemma ClearedBuffer(d: seq<byte>, before: seq<byte>)
    requires |before| == RECEIVED && |d| == FULL
    ensures Overlay(Zeros(DECLARED), Overlay(d, before))[..FULL] == Cleared(d)
  {
  }

  /** In lock-step the client takes DATA k for the block it expects exactly when it is. */
  lemma AcceptsExpectedOnly(t: Transfer, k: nat)
    requires LockStep(t) && 1 <= k <= t.sent
    ensures SignedChar(k % 256) == t.client.expected <==> k == t.client.expected && k <= 127
  {
  }

  /** Lock-step and what is in flight survive a DATA datagram, accepted or not. */
  lemma DataKeepsLockStep(t: Transfer, k: nat, t': Transfer)
    requires LockStep(t) && InFlight(t) && 1 <= k <= t.sent
    requires t' == t.(client := t'.client, toServer := t.toServer + {Ack(k)}, received := t'.received)
    requires t'.client.expected == if k == t.client.expected && k <= 127 then k + 1 else t.client.expected
    ensures LockStep(t') && InFlight(t')
  {
    forall a | a in t'.toServer
      ensures IsSentAck(t'.sent, t'.client.expected, a)
    {
      if a in t.toServer {
        AckStillSent(t.sent, t.client.expected, t'.sent, t'.client.expected, a);
      } else {
        assert a == Ack(k);
      }
    }
  }

  lemma AckStillSent(sent: nat, expected: int, sent': nat, expected': int, a: seq<byte>)
    requires IsSentAck(sent, expected, a) && sent <= sent' && expected <= expected' <= 128
    ensures IsSentAck(sent', expected', a)
  {
    var k :| 1 <= k <= sent && a == Ack(k) && (k < expected || expected == 128);
    assert 1 <= k <= sent' && a == Ack(k);
  }

  lemma FullBlockBuffer(t: Transfer, k: nat, c': Client)
    requires BufferInv(t) && t.client.status.Receiving? && 1 <= k < BlockCount(t.source)
    requires DataEffect(t.client, t.source, k, c')
    ensures BufferOk(t.name, t.source, c', t.received + [Data(t.source, k)])
  {
    var received := t.received + [Data(t.source, k)];
    assert received[|received| - 1] == Data(t.source, k);
  }

  /** The file after a datagram, with nothing left behind a full block. */
  lemma FullBlockText(c: Client, source: seq<byte>, k: nat, c': Client)
    requires c.WellFormed() && 1 <= k < BlockCount(source) && DataEffect(c, source, k, c')
    ensures c'.status.Receiving? && c'.WellFormed()
    ensures SignedChar(k % 256) == c.expected ==>
              c'.expected == c.expected + 1 && c'.file == c.file + CText(Block(source, k))
    ensures SignedChar(k % 256) != c.expected ==> c'.expected == c.expected && c'.file == c.file
  {
    WrittenFull(c.file, Block(source, k), c.buff[..FULL]);
  }

  lemma WrittenFull(file: seq<byte>, b: seq<byte>, behind: seq<byte>)
    requires |behind| == FULL && |b| == 512
    ensures Written(file, b, behind) == file + CText(b)
  {
    assert b + Part(behind, FULL, FULL) == b;
  }

  /** A full block: the file has grown by the block or not at all. */
  lemma FullBlockFile(t: Transfer, k: nat, c': Client)
    requires LockStep(t) && FileInv(t) && t.client.status.Receiving? && t.client.WellFormed()
    requires 1 <= k <= t.sent && k < BlockCount(t.source)
    requires DataEffect(t.client, t.source, k, c')
    ensures FileOk(t.source, c')
  {
    FullBlockText(t.client, t.source, k, c');
    AcceptsExpectedOnly(t, k);
    FileGrows(t.source, t.client, k, c');
  }

  lemma FileGrows(source: seq<byte>, c: Client, k: nat, c': Client)
    requires FileOk(source, c) && 1 <= k < BlockCount(source)
    requires || (c'.expected == c.expected && c'.file == c.file)
             || (k == c.expected && c'.expected == k + 1 && c'.file == c.file + CText(Block(source, k)))
    ensures FileOk(source, c')
  {
    if c'.expected != c.expected {
      OneMorePiece(source, k, c.file, c'.file);
    }
  }

  lemma OneMorePiece(source: seq<byte>, k: nat, file: seq<byte>, file': seq<byte>)
    requires 1 <= k < BlockCount(source) && NulFree(file) && file == Pieces(source, k - 1)
    requires file' == file + CText(Block(source, k))
    ensures NulFree(file') && file' == Pieces(source, k)
  {
    TextAppended(file, Block(source, k));
  }

  /** The residue is what `buff` holds behind the last block, up to its first NUL. */
  lemma ResidueIsText(name: seq<byte>, source: seq<byte>, before: seq<seq<byte>>)
    requires NulFree(name) && |name| + 9 <= DECLARED && NulFree(source)
    requires if |source| < 512 then before == [] else EndsInFullBlock(source, before)
    ensures CText(Part(Behind(name, before), 4 + |source| % 512, FULL)) == Residue(name, source, before)
  {
    if |source| < 512 {
      RequestText(name, |source|);
    } else {
      BlockText(source, before);
    }
  }

  lemma BlockText(source: seq<byte>, before: seq<seq<byte>>)
    requires NulFree(source) && EndsInFullBlock(source, before)
    ensures var d, from := before[|before| - 1], 4 + |source| % 512;
            CText(Part(Cleared(d), from, FULL)) == if from < DECLARED then [] else Part(d, from, FULL)
  {
    var d, from := before[|before| - 1], 4 + |source| % 512;
    var left := Part(Cleared(d), from, FULL);
    if from < DECLARED {
      assert left[0] == 0;
      StrLenUnique(left, 0);
    } else {
      assert left == Part(d, from, FULL);
      var k :| 1 <= k < BlockCount(source) && d == Data(source, k);
      BlockNulFree(source, k);
      NulFreeMeans(Block(source, k));
      assert forall i :: 0 <= i < |left| ==> left[i] == Block(source, k)[from - 4 + i];
      NulFreeMeans(left);
      CTextOfNulFree(left);
    }
  }

  lemma RequestText(name: seq<byte>, length: nat)
    requires NulFree(name) && |name| + 9 <= DECLARED && length < 512
    ensures CText(Part(Started(name).buff[..FULL], 4 + length, FULL)) == RequestResidue(name, length)
  {
    RequestBytes(name);
    NulFreeMeans(name);
    TextAt(Started(name).buff[..FULL], 4 + length, RequestResidue(name, length));
  }

  lemma RequestBytes(name: seq<byte>)
    requires |name| + 9 <= DECLARED
    ensures forall i :: 2 <= i < 2 + |name| ==> Started(name).buff[i] == name[i - 2]
    ensures forall i :: 3 + |name| <= i < 8 + |name| ==> Started(name).buff[i] == OCTET[i - |name| - 3]
    ensures Started(name).buff[2 + |name|] == 0
    ensures forall i :: 8 + |name| <= i < RECEIVED ==> Started(name).buff[i] == 0
  {
  }

  lemma TextAt(s: seq<byte>, from: nat, text: seq<byte>)
    requires from + |text| < |s| && s[from + |text|] == 0
    requires forall i :: 0 <= i < |text| ==> s[from + i] == text[i] != 0
    ensures CText(Part(s, from, |s|)) == text
  {
    var left := Part(s, from, |s|);
    assert forall i :: 0 <= i < |text| ==> left[i] == text[i];
    StrLenUnique(left, |text|);
    assert left[..|text|] == text;
  }

  /** The last block, taken as expected: what follows it in `buff` ends the file. */
  lemma LastBlockAccepted(name: seq<byte>, source: seq<byte>, before: seq<seq<byte>>, c: Client, c': Client)
    requires c.WellFormed() && FileOk(source, c) && c.expected == BlockCount(source) <= 127
    requires |name| + 9 <= DECLARED && (if |source| < 512 then before == [] else EndsInFullBlock(source, before))
    requires c.buff[..FULL] == Behind(name, before)
    requires DataEffect(c, source, c.expected, c')
    ensures SavedFile(name, source, before, c'.file)
  {
    LastBlockWritten(c, source, c');
    SavedFrom(name, source, before, c.buff[..FULL], c'.file);
  }

  lemma BeforeLastBlock(t: Transfer)
    requires BufferInv(t) && t.client.status.Receiving? && t.client.expected == BlockCount(t.source)
    ensures if |t.source| < 512 then t.received == [] else EndsInFullBlock(t.source, t.received)
    ensures |t.name| + 9 <= DECLARED && t.client.buff[..FULL] == Behind(t.name, t.received)
  {
  }

  lemma LastBlockWritten(c: Client, source: seq<byte>, c': Client)
    requires c.WellFormed() && FileOk(source, c) && c.expected == BlockCount(source) <= 127
    requires DataEffect(c, source, c.expected, c')
    ensures var n := BlockCount(source);
            c'.file == Written(Pieces(source, n - 1), Block(source, n), c.buff[..FULL])
  {
  }

  lemma SavedFrom(name: seq<byte>, source: seq<byte>, before: seq<seq<byte>>, behind: seq<byte>, file: seq<byte>)
    requires |name| + 9 <= DECLARED && BlockCount(source) <= 127
    requires if |source| < 512 then before == [] else EndsInFullBlock(source, before)
    requires behind == Behind(name, before)
    requires var n := BlockCount(source); file == Written(Pieces(source, n - 1), Block(source, n), behind)
    ensures SavedFile(name, source, before, file)
  {
  }

  lemma TextSoFar(source: seq<byte>, c: Client)
    requires FileOk(source, c) && NulFree(source)
    ensures c.file == source[..512 * (c.expected - 1)]
  {
    PiecesAreSource(source, c.expected - 1);
  }

  /** A saved text is its source and the residue behind it, or its first 127 blocks. */
  lemma SavedFileIsText(name: seq<byte>, source: seq<byte>, before: seq<seq<byte>>, file: seq<byte>)
    requires NulFree(name) && |name| + 9 <= DECLARED && NulFree(source)
    requires SavedFile(name, source, before, file)
    ensures SavedText(name, source, before, file)
  {
    var n := BlockCount(source);
    if n > 127 {
      PiecesAreSource(source, 127);
    } else {
      assert |Block(source, n)| == |source| % 512;
      LastBlockText(source, Behind(name, before));
      ResidueIsText(name, source, before);
    }
  }

  /** Of all that may be saved, only an intact source is saved as itself. */
  lemma SavedWhole(name: seq<byte>, source: seq<byte>, before: seq<seq<byte>>, file: seq<byte>)
    requires NulFree(source) ==> SavedText(name, source, before, file)
    requires NulFree(file)
    ensures file == source <==> Intact(name, source)
  {
    if NulFree(source) && 512 <= |source| < 127 * 512 {
      assert |before[|before| - 1]| == FULL;
      assert |file| == |source| + |Residue(name, source, before)|;
    }
  }

  lemma LastBlockText(source: seq<byte>, behind: seq<byte>)
    requires NulFree(source) && |behind| == FULL
    ensures var n := BlockCount(source);
            Written(Pieces(source, n - 1), Block(source, n), behind)
            == source + CText(Part(behind, 4 + |Block(source, n)|, FULL))
  {
    var n := BlockCount(source);
    PiecesAreSource(source, n - 1);
    LastBlockEnds(source);
    BlockNulFree(source, n);
    WrittenText(source[..512 * (n - 1)], Block(source, n), behind);
  }

  lemma WrittenText(front: seq<byte>, b: seq<byte>, behind: seq<byte>)
    requires NulFree(b) && |behind| == FULL && |b| <= 512
    ensures Written(front, b, behind) == front + b + CText(Part(behind, 4 + |b|, FULL))
  {
    TextAfter(front, b, Part(behind, 4 + |b|, FULL));
  }

  lemma LastBlockEnds(source: seq<byte>)
    ensures var n := BlockCount(source);
            source[..512 * (n - 1)] + Block(source, n) == source
  {
  }

  lemma TextAfter(front: seq<byte>, last: seq<byte>, left: seq<byte>)
    requires NulFree(last)
    ensures front + CText(last + left) == front + last + CText(left)
  {
    CTextAppend(last, left);
    Associative(front, last, CText(left));
  }

  lemma WrittenNulFree(file: seq<byte>, b: seq<byte>, behind: seq<byte>)
    requires NulFree(file) && |behind| == FULL && |b| <= 512
    ensures NulFree(Written(file, b, behind))
  {
    TextAppended(file, b + Part(behind, 4 + |b|, FULL));
  }

  /** The last block once the client's counter has passed 127: acknowledged, not written. */
  lemma LastBlockIgnored(t: Transfer, c': Client)
    requires FileInv(t) && t.client.status.Receiving? && t.client.WellFormed()
    requires t.client.expected == 128 <= BlockCount(t.source)
    requires DataEffect(t.client, t.source, BlockCount(t.source), c')
    ensures c'.file == Pieces(t.source, 127)
  {
    assert SignedChar(BlockCount(t.source) % 256) != 128;
  }

  lemma LastBlock(t: Transfer, c': Client)
    requires LockStep(t) && FileInv(t) && BufferInv(t) && t.client.status.Receiving? && t.sent == BlockCount(t.source)
    requires DataEffect(t.client, t.source, t.sent, c')
    ensures SavedFile(t.name, t.source, t.received, c'.file)
  {
    AcceptsExpectedOnly(t, t.sent);
    if t.sent > 127 {
      LastBlockIgnored(t, c');
    } else {
      BeforeLastBlock(t);
      LastBlockAccepted(t.name, t.source, t.received, t.client, c');
    }
  }

  lemma DataKeepsText(c: Client, source: seq<byte>, k: nat, c': Client)
    requires c.WellFormed() && 1 <= k <= BlockCount(source) && NulFree(c.file)
    requires DataEffect(c, source, k, c')
    ensures NulFree(c'.file)
  {
    WrittenNulFree(c.file, Block(source, k), c.buff[..FULL]);
  }

  // ---- Every step keeps the invariant ----

  lemma InitInv(name: seq<byte>, source: seq<byte>)
    requires NulFree(name) && |name| + 9 <= DECLARED
    ensures Inv(Init(name, source))
  {
  }

  /** An acknowledgement of the outstanding block proves that the client has moved past it, as
      long as its counter is not stuck at 128. */
  lemma AckMeansReceived(t: Transfer)
    requires LockStep(t) && InFlight(t) && Ack(t.sent) in t.toServer
    ensures t.sent < t.client.expected || t.client.expected == 128
  {
    if t.client.expected < 128 {
      var k :| 1 <= k <= t.sent && Ack(t.sent) == Ack(k) && k < t.client.expected;
      assert Ack(k)[2..] == Wire(k) && Ack(t.sent)[2..] == Wire(t.sent);
      SameWire(k, t.sent);
    }
  }

  lemma SendingKeepsInFlight(t: Transfer, t': Transfer)
    requires InFlight(t) && LockStep(t) && t.sent < BlockCount(t.source)
    requires t' == t.(sent := t.sent + 1, toClient := t.toClient + {Data(t.source, t.sent + 1)})
    ensures InFlight(t')
  {
    forall d | d in t'.toClient && !IsError(d)
      ensures IsSentBlock(t'.source, t'.sent, d)
    {
      if d in t.toClient {
        var k :| 1 <= k <= t.sent && d == Data(t.source, k);
        assert 1 <= k <= t'.sent;
      } else {
        assert d == Data(t'.source, t'.sent);
      }
    }
    forall a | a in t'.toServer
      ensures IsSentAck(t'.sent, t'.client.expected, a)
    {
      AckStillSent(t.sent, t.client.expected, t'.sent, t'.client.expected, a);
    }
  }

  lemma FailingKeepsInv(t: Transfer, error: seq<byte>)
    requires Inv(t) && IsError(error)
    ensures Inv(t.(toClient := t.toClient + {error}))
  {
  }

  lemma SendingKeepsInv(t: Transfer, t': Transfer)
    requires Inv(t) && t.sent < BlockCount(t.source) && (t.client.expected < 128 ==> t.sent < t.client.expected)
    requires t' == t.(sent := t.sent + 1, toClient := t.toClient + {Data(t.source, t.sent + 1)})
    ensures Inv(t')
  {
    SendingKeepsInFlight(t, t');
  }

  lemma ServerStepKeepsInv(t: Transfer, step: Step)
    requires Inv(t) && Enabled(t, step) && !step.ClientTurn?
    ensures Inv(Apply(t, step))
  {
    match step {
      case ServerFails(error) =>
        FailingKeepsInv(t, error);
      case ServerAccepts =>
        SendingKeepsInv(t, Apply(t, step));
      case ServerHears(_) =>
        AckMeansReceived(t);
        SendingKeepsInv(t, Apply(t, step));
    }
  }

  lemma SameWire(j: nat, k: nat)
    requires Wire(j) == Wire(k) && j < 0x1_0000 && k < 0x1_0000
    ensures j == k
  {
  }

  /** A turn that acknowledges nothing: an ERROR, a timeout, or an event without data. */
  lemma SilentTurnKeepsInv(t: Transfer, input: Input)
    requires Inv(t) && Enabled(t, ClientTurn(input)) && (input.Arrive? ==> IsError(input.datagram))
    ensures Inv(Apply(t, ClientTurn(input)))
  {
    SilentTurn(t.client, input);
    var t' := Apply(t, ClientTurn(input));
    assert t'.toServer == t.toServer;
    assert InFlight(t');
  }

  lemma SilentTurn(c: Client, input: Input)
    requires c.WellFormed() && c.status.Receiving? && (input.Arrive? ==> IsError(input.datagram))
    ensures AcksOn(c, input) == [] && OnInput(c, input).expected == c.expected
    ensures OnInput(c, input).status.Receiving? ==> !input.Arrive? && OnInput(c, input) == c
  {
  }

  lemma DataTurnKeepsInv(t: Transfer, k: nat, t': Transfer)
    requires Inv(t) && t.client.status.Receiving? && 1 <= k <= t.sent
    requires DataEffect(t.client, t.source, k, t'.client)
    requires t' == t.(client := t'.client, toServer := t.toServer + {Ack(k)},
                      received := t.received + [Data(t.source, k)])
    ensures Inv(t')
  {
    if k < BlockCount(t.source) {
      FullBlockBuffer(t, k, t'.client);
      FullBlockFile(t, k, t'.client);
    }
    AcceptsExpectedOnly(t, k);
    DataKeepsLockStep(t, k, t');
  }

  lemma ClientTurnKeepsInv(t: Transfer, input: Input)
    requires Inv(t) && Enabled(t, ClientTurn(input))
    ensures Inv(Apply(t, ClientTurn(input)))
  {
    if !input.Arrive? || IsError(input.datagram) {
      SilentTurnKeepsInv(t, input);
    } else {
      var k :| 1 <= k <= t.sent && input.datagram == Data(t.source, k);
      DataTurn(t, k);
      DataTurnKeepsInv(t, k, Apply(t, ClientTurn(input)));
    }
  }

  lemma DataTurn(t: Transfer, k: nat)
    requires t.client.WellFormed() && 1 <= k <= BlockCount(t.source)
    requires Enabled(t, ClientTurn(Arrive(Data(t.source, k))))
    ensures var t' := Apply(t, ClientTurn(Arrive(Data(t.source, k))));
            && t' == t.(client := t'.client, toServer := t.toServer + {Ack(k)},
                        received := t.received + [Data(t.source, k)])
            && DataEffect(t.client, t.source, k, t'.client)
  {
    ClientAfterData(t.client, t.source, k);
    assert (set a | a in [Ack(k)]) == {Ack(k)};
  }

  lemma {:induction false} RunKeepsInv(t: Transfer, steps: seq<Step>)
    requires Inv(t) && IsRun(t, steps)
    ensures Inv(After(t, steps))
    decreases |steps|
  {
    if steps != [] {
      var front, last := steps[..|steps| - 1], steps[|steps| - 1];
      RunKeepsInv(t, front);
      if last.ClientTurn? {
        ClientTurnKeepsInv(After(t, front), last.input);
      } else {
        ServerStepKeepsInv(After(t, front), last);
      }
    }
  }

  lemma {:induction false} RunKeepsNames(t: Transfer, steps: seq<Step>)
    requires IsRun(t, steps)
    ensures After(t, steps).name == t.name && After(t, steps).source == t.source
    decreases |steps|
  {
    if steps != [] {
      RunKeepsNames(t, steps[..|steps| - 1]);
    }
  }

  /** A client that stops leaves its file as Outcome says, and it stays like that. */
  lemma StepKeepsOutcome(t: Transfer, step: Step)
    requires Inv(t) && Outcome(t) && Enabled(t, step)
    ensures Outcome(Apply(t, step))
  {
    if step.ClientTurn? && step.input.Arrive? && !IsError(step.input.datagram) {
      var k :| 1 <= k <= t.sent && step.input.datagram == Data(t.source, k);
      DataOutcome(t, k);
    } else if step.ClientTurn? {
      SilentOutcome(t, step.input);
    }
  }

  lemma SilentOutcome(t: Transfer, input: Input)
    requires BufferInv(t) && Enabled(t, ClientTurn(input))
    requires FileInv(t) && (input.Arrive? ==> IsError(input.datagram))
    ensures Outcome(Apply(t, ClientTurn(input)))
  {
    if input.Arrive? {
      ErrorRemoves(t.client, input.datagram);
    }
  }

  lemma ErrorRemoves(c: Client, d: seq<byte>)
    requires c.WellFormed() && IsError(d)
    ensures OnDatagram(c, d).status == Removed && OnDatagram(c, d).file == []
  {
  }

  lemma DataOutcome(t: Transfer, k: nat)
    requires LockStep(t) && FileInv(t) && BufferInv(t) && Outcome(t) && 1 <= k <= t.sent
    requires Enabled(t, ClientTurn(Arrive(Data(t.source, k))))
    ensures Outcome(Apply(t, ClientTurn(Arrive(Data(t.source, k)))))
  {
    DataTurn(t, k);
    if k == BlockCount(t.source) {
      var c' := Apply(t, ClientTurn(Arrive(Data(t.source, k)))).client;
      DataKeepsText(t.client, t.source, k, c');
      LastBlock(t, c');
    }
  }

  lemma {:induction false} RunOutcomeInv(t: Transfer, steps: seq<Step>)
    requires Inv(t) && Outcome(t) && IsRun(t, steps)
    ensures Outcome(After(t, steps))
    decreases |steps|
  {
    if steps != [] {
      var front := steps[..|steps| - 1];
      RunKeepsInv(t, front);
      RunOutcomeInv(t, front);
      StepKeepsOutcome(After(t, front), steps[|steps| - 1]);
    }
  }

  // ---- Whole runs ----

  ghost predicate FinishedRun(name: seq<byte>, source: seq<byte>, steps: seq<Step>)
    requires NulFree(name) && |name| + 9 <= DECLARED
  {
    IsRun(Init(name, source), steps) && !After(Init(name, source), steps).client.status.Receiving?
  }

  lemma ReachedInv(name: seq<byte>, source: seq<byte>, steps: seq<Step>)
    requires NulFree(name) && |name| + 9 <= DECLARED && IsRun(Init(name, source), steps)
    ensures Inv(After(Init(name, source), steps))
    ensures After(Init(name, source), steps).name == name && After(Init(name, source), steps).source == source
  {
    InitInv(name, source);
    RunKeepsInv(Init(name, source), steps);
    RunKeepsNames(Init(name, source), steps);
  }

  /** In every run the server's outstanding block stays within one of the client's, nothing
      in flight is ahead of it, and every acknowledgement in flight is for a block already
      taken; all this until the client's counter sticks at 128. */
  lemma LockStepRun(name: seq<byte>, source: seq<byte>, steps: seq<Step>)
    requires NulFree(name) && |name| + 9 <= DECLARED && IsRun(Init(name, source), steps)
    ensures 1 <= After(Init(name, source), steps).client.expected <= 128
    ensures var t := After(Init(name, source), steps);
            t.client.expected - 1 <= t.sent <= if t.client.expected < 128 then t.client.expected else BlockCount(source)
    ensures var t := After(Init(name, source), steps);
            forall d :: d in t.toClient ==>
              IsError(d) || exists k :: 1 <= k <= t.sent && k <= BlockCount(source) && d == Data(source, k)
    ensures var t := After(Init(name, source), steps);
            t.client.expected < 128 ==>
              forall a :: a in t.toServer ==> exists k :: 1 <= k < t.client.expected && a == Ack(k)
  {
    ReachedInv(name, source, steps);
    var t := After(Init(name, source), steps);
    forall d | d in t.toClient && !IsError(d)
      ensures exists k :: 1 <= k <= t.sent && k <= BlockCount(source) && d == Data(source, k)
    {
      var k :| 1 <= k <= t.sent && d == Data(source, k);
    }
    if t.client.expected < 128 {
      forall a | a in t.toServer
        ensures exists k :: 1 <= k < t.client.expected && a == Ack(k)
      {
        var k :| 1 <= k <= t.sent && a == Ack(k) && k < t.client.expected;
      }
    }
  }

  /** At every moment of every run, while the client is receiving, its file holds the text of
      the blocks before the one it expects: a duplicate is never written twice. */
  lemma FilePrefixRun(name: seq<byte>, source: seq<byte>, steps: seq<Step>)
    requires NulFree(name) && |name| + 9 <= DECLARED && IsRun(Init(name, source), steps)
    requires After(Init(name, source), steps).client.status.Receiving?
    ensures var c := After(Init(name, source), steps).client;
            && 1 <= c.expected <= BlockCount(source) && c.expected <= 128
            && c.file == Pieces(source, c.expected - 1)
            && (NulFree(source) ==> c.file == source[..512 * (c.expected - 1)])
  {
    ReachedInv(name, source, steps);
    if NulFree(source) {
      TextSoFar(source, After(Init(name, source), steps).client);
    }
  }

  /** How every finished run ends: with the file removed; or saved empty, if what `poll` first
      reported was not a datagram; or saved after a datagram, as SavedFile says of any source and
      SavedText of a text, and then equal to the source exactly for the intact sources. */
  lemma RunOutcome(name: seq<byte>, source: seq<byte>, steps: seq<Step>)
    requires NulFree(name) && |name| + 9 <= DECLARED && FinishedRun(name, source, steps)
    ensures var t := After(Init(name, source), steps);
            && (EarlyEvent(steps) <==> SavedUnread(t))
            && (t.client.status.Removed? || EarlyEvent(steps) ==> t.client.file == [])
            && (t.client.status.Saved? && !EarlyEvent(steps) ==>
                  && t.received != []
                  && var before := t.received[..|t.received| - 1];
                  && SavedFile(name, source, before, t.client.file)
                  && (NulFree(source) ==> SavedText(name, source, before, t.client.file))
                  && (t.client.file == source <==> Intact(name, source)))
  {
    InitInv(name, source);
    RunOutcomeInv(Init(name, source), steps);
    RunKeepsNames(Init(name, source), steps);
    UnreadRun(Init(name, source), steps);
    var t := After(Init(name, source), steps);
    if t.client.status.Saved? && t.received != [] {
      var before := t.received[..|t.received| - 1];
      if NulFree(source) {
        SavedFileIsText(name, source, before, t.client.file);
      }
      SavedWhole(name, source, before, t.client.file);
    }
  }

  // ---- The runs are runs of the loop ----

  /** What the client's turns find, in order. */
  function Inputs(steps: seq<Step>): (inputs: seq<Input>) {
    if steps == [] then []
    else
      var last := steps[|steps| - 1];
      Inputs(steps[..|steps| - 1]) + if last.ClientTurn? then [last.input] else []
  }

  /** The client after these inputs, and what it has sent. */
  ghost predicate AsFed(t: Transfer, start: Client, inputs: seq<Input>)
    requires start.WellFormed()
  {
    && t.client == Feed(start, inputs)
    && forall a :: a in t.toServer <==> a in AllAcks(start, inputs)
  }

  lemma StepFeeds(t: Transfer, step: Step, start: Client, inputs: seq<Input>)
    requires start.WellFormed() && AsFed(t, start, inputs) && Enabled(t, step)
    ensures AsFed(Apply(t, step), start, inputs + if step.ClientTurn? then [step.input] else [])
  {
    if step.ClientTurn? {
      FeedOneMore(start, inputs, step.input);
    } else {
      assert inputs + [] == inputs;
    }
  }

  lemma {:induction false} RunFeeds(t: Transfer, steps: seq<Step>)
    requires IsRun(t, steps) && t.client.WellFormed() && t.client.status.Receiving? && t.toServer == {}
    ensures AsFed(After(t, steps), t.client, Inputs(steps))
    decreases |steps|
  {
    if steps == [] {
      FeedOneMore(t.client, [], Timeout);
    } else {
      var front := steps[..|steps| - 1];
      RunFeeds(t, front);
      StepFeeds(After(t, front), steps[|steps| - 1], t.client, Inputs(front));
    }
  }

  /** In every run the client is what the loop of the program makes of the inputs of its turns,
      and the acknowledgements on the network are the ones that loop sends. */
  lemma ClientIsFed(name: seq<byte>, source: seq<byte>, steps: seq<Step>)
    requires NulFree(name) && |name| + 9 <= DECLARED && IsRun(Init(name, source), steps)
    ensures var t := After(Init(name, source), steps);
            && t.client == Feed(Started(name), Inputs(steps))
            && forall a :: a in t.toServer <==> a in AllAcks(Started(name), Inputs(steps))
  {
    RunFeeds(Init(name, source), steps);
  }

  /** In every run, a timeout removes the file however far the transfer has come, and an event
      without data changes nothing once a datagram has arrived; a client that has stopped stays
      as it is. */
  lemma EventsInRun(name: seq<byte>, source: seq<byte>, steps: seq<Step>)
    requires NulFree(name) && |name| + 9 <= DECLARED && IsRun(Init(name, source), steps)
    ensures var t := After(Init(name, source), steps);
            && (Enabled(t, ClientTurn(Timeout)) ==>
                  var c' := Apply(t, ClientTurn(Timeout)).client; c'.status == Removed && c'.file == [])
            && (Enabled(t, ClientTurn(OtherEvent)) && t.received != [] ==>
                  Apply(t, ClientTurn(OtherEvent)) == t)
            && (!t.client.status.Receiving? ==> forall step :: Enabled(t, step) ==> Apply(t, step).client == t.client)
  {
    ReachedInv(name, source, steps);
    var t := After(Init(name, source), steps);
    if Enabled(t, ClientTurn(OtherEvent)) && t.received != [] {
      OtherEventTests(t.client);
      assert Apply(t, ClientTurn(OtherEvent)).toServer == t.toServer;
    }
  }

  // ---- What can happen ----

  /** The network and the poll are free: while the client is receiving, any datagram ever sent
      to it may arrive, a timeout or another event may come, and the server may give up with
      any ERROR; and nothing sent is ever forgotten. */
  lemma AnythingCanHappen(t: Transfer)
    requires t.client.WellFormed()
    ensures forall error :: IsError(error) ==> Enabled(t, ServerFails(error))
    ensures t.client.status.Receiving? ==>
              && Enabled(t, ClientTurn(Timeout)) && Enabled(t, ClientTurn(OtherEvent))
              && forall d :: d in t.toClient ==> Enabled(t, ClientTurn(Arrive(d)))
    ensures t.sent == 0 ==> Enabled(t, ServerAccepts)
    ensures 1 <= t.sent < BlockCount(t.source) && Ack(t.sent) in t.toServer ==> Enabled(t, ServerHears(Ack(t.sent)))
    ensures forall step :: Enabled(t, step) ==>
              t.toClient <= Apply(t, step).toClient && t.toServer <= Apply(t, step).toServer
  {
  }

  /** The server's datagrams, field by field: section 5 of RFC 1350, with the block number
      wrapping around after 65535. */
  lemma DataFields(source: seq<byte>, k: nat)
    requires 1 <= k <= BlockCount(source)
    ensures var d := Data(source, k);
            && |d| >= 4 && d[0] == 0 && d[1] == 3 && 256 * (d[2] as nat) + d[3] as nat == k % 65536
            && (forall i :: 4 <= i < |d| ==>
                  512 * (k - 1) + (i - 4) < |source| && d[i] == source[512 * (k - 1) + (i - 4)])
            && (if k < BlockCount(source) then |d| == 516 else 512 * (k - 1) + (|d| - 4) == |source|)
  {
    BlockNumberBytes(k);
  }

  lemma BlockNumberBytes(k: nat)
    ensures 256 * (k / 256 % 256) + k % 256 == k % 65536
  {
    Split256(k);
    Split256(k / 256);
    Remainder(k / 256 / 256, k / 256 % 256, k % 256, k);
  }

  lemma Split256(k: nat)
    ensures k == 256 * (k / 256) + k % 256
  {
  }

  lemma Remainder(q: nat, high: byte, low: byte, k: nat)
    requires k == 65536 * q + 256 * high + low
    ensures k % 65536 == 256 * high + low
  {
  }

  // ---- An event before the first datagram ----

  ghost predicate NoTurn(steps: seq<Step>) {
    forall i :: 0 <= i < |steps| ==> !steps[i].ClientTurn?
  }

  /** The first thing `poll` reports is neither a datagram nor a timeout. */
  ghost predicate EarlyEvent(steps: seq<Step>) {
    exists k :: 0 <= k < |steps| && steps[k] == ClientTurn(OtherEvent) && NoTurn(steps[..k])
  }

  lemma LastStepEvents(steps: seq<Step>)
    requires steps != []
    ensures var front, last := steps[..|steps| - 1], steps[|steps| - 1];
            && (NoTurn(steps) <==> NoTurn(front) && !last.ClientTurn?)
            && (EarlyEvent(steps) <==> EarlyEvent(front) || (last == ClientTurn(OtherEvent) && NoTurn(front)))
  {
    var front := steps[..|steps| - 1];
    if EarlyEvent(front) {
      var k :| 0 <= k < |front| && front[k] == ClientTurn(OtherEvent) && NoTurn(front[..k]);
      assert steps[..k] == front[..k] && steps[k] == front[k];
    }
    if EarlyEvent(steps) {
      var k :| 0 <= k < |steps| && steps[k] == ClientTurn(OtherEvent) && NoTurn(steps[..k]);
      assert steps[..k] == front[..k];
    }
  }

  ghost predicate Unread(t: Transfer) {
    t.client.status.Receiving? && t.received == []
  }

  ghost predicate SavedUnread(t: Transfer) {
    t.client.status.Saved? && t.received == []
  }

  lemma UnreadStep(t: Transfer, step: Step)
    requires BufferInv(t) && FileInv(t) && Enabled(t, step)
    ensures Unread(Apply(t, step)) <==> Unread(t) && !step.ClientTurn?
    ensures SavedUnread(Apply(t, step)) <==> SavedUnread(t) || (Unread(t) && step == ClientTurn(OtherEvent))
  {
  }

  /** The client is still waiting for its first datagram exactly when it has had no turn, and
      has saved a file without one exactly when an event came too early. */
  lemma {:induction false} UnreadRun(t: Transfer, steps: seq<Step>)
    requires Inv(t) && Unread(t) && IsRun(t, steps)
    ensures Unread(After(t, steps)) <==> NoTurn(steps)
    ensures SavedUnread(After(t, steps)) <==> EarlyEvent(steps)
    decreases |steps|
  {
    if steps != [] {
      var front, last := steps[..|steps| - 1], steps[|steps| - 1];
      UnreadRun(t, front);
      RunKeepsInv(t, front);
      UnreadStep(After(t, front), last);
      LastStepEvents(steps);
    }
  }

  // ---- Every transfer can still be completed ----

  lemma RunExtends(t: Transfer, steps: seq<Step>, step: Step)
    requires IsRun(t, steps) && Enabled(After(t, steps), step)
    ensures IsRun(t, steps + [step]) && After(t, steps + [step]) == Apply(After(t, steps), step)
  {
    assert (steps + [step])[..|steps|] == steps;
  }

  lemma {:induction false} RunsCompose(t: Transfer, steps: seq<Step>, more: seq<Step>)
    requires IsRun(t, steps) && IsRun(After(t, steps), more)
    ensures IsRun(t, steps + more) && After(t, steps + more) == After(After(t, steps), more)
    decreases |more|
  {
    if more == [] {
      assert steps + more == steps;
    } else {
      RunsCompose(t, steps, more[..|more| - 1]);
      ComposeStep(t, steps, more);
    }
  }

  lemma ComposeStep(t: Transfer, steps: seq<Step>, more: seq<Step>)
    requires more != [] && IsRun(t, steps + more[..|more| - 1])
    requires Enabled(After(t, steps + more[..|more| - 1]), more[|more| - 1])
    ensures IsRun(t, steps + more)
    ensures After(t, steps + more) == Apply(After(t, steps + more[..|more| - 1]), more[|more| - 1])
  {
    var front, last := steps + more[..|more| - 1], more[|more| - 1];
    RunExtends(t, front, last);
    LastApart(steps, more);
  }

  lemma LastApart(steps: seq<Step>, more: seq<Step>)
    requires more != []
    ensures steps + more[..|more| - 1] + [more[|more| - 1]] == steps + more
  {
  }

  lemma TurnAcknowledges(t: Transfer, k: nat)
    requires OnItsWay(t, k)
    ensures Enabled(t, ClientTurn(Arrive(Data(t.source, k))))
    ensures var t' := Apply(t, ClientTurn(Arrive(Data(t.source, k))));
            && t' == t.(client := t'.client, toServer := t.toServer + {Ack(k)},
                        received := t.received + [Data(t.source, k)])
            && t'.client.WellFormed() && t'.client.status == if k < BlockCount(t.source) then Receiving else Saved
  {
    DataTurn(t, k);
  }

  /** Block k is outstanding and on its way to a client that is receiving. */
  ghost predicate OnItsWay(t: Transfer, k: nat) {
    && 1 <= k <= BlockCount(t.source)
    && t.sent == k
    && t.client.status.Receiving? && t.client.WellFormed()
    && Data(t.source, k) in t.toClient
  }

  lemma AckBringsNext(t: Transfer, k: nat)
    requires 1 <= k < BlockCount(t.source) && t.sent == k && Ack(k) in t.toServer
    requires t.client.status.Receiving? && t.client.WellFormed()
    ensures Enabled(t, ServerHears(Ack(k)))
    ensures OnItsWay(Apply(t, ServerHears(Ack(k))), k + 1) && Apply(t, ServerHears(Ack(k))).source == t.source
  {
  }

  /** The outstanding block has been sent. */
  ghost predicate Outstanding(t: Transfer) {
    1 <= t.sent <= BlockCount(t.source) ==> Data(t.source, t.sent) in t.toClient
  }

  lemma {:induction false} OutstandingRun(t: Transfer, steps: seq<Step>)
    requires Outstanding(t) && IsRun(t, steps)
    ensures Outstanding(After(t, steps))
    decreases |steps|
  {
    if steps != [] {
      var front := steps[..|steps| - 1];
      OutstandingRun(t, front);
      StepKeepsOutstanding(After(t, front), steps[|steps| - 1]);
    }
  }

  lemma StepKeepsOutstanding(t: Transfer, step: Step)
    requires Outstanding(t) && Enabled(t, step)
    ensures Outstanding(Apply(t, step))
  {
  }

  /** A run without events other than datagrams and timeouts. */
  ghost predicate Leads(t: Transfer, steps: seq<Step>, u: Transfer) {
    IsRun(t, steps) && After(t, steps) == u && ClientTurn(OtherEvent) !in steps
  }

  /** While the client is receiving, a block not yet sent can be brought on its way, by
      delivering the outstanding ones and their acknowledgements. */
  lemma {:induction false} ReachesBlock(t: Transfer, k: nat) returns (steps: seq<Step>, u: Transfer)
    requires t.client.status.Receiving? && t.client.WellFormed() && Outstanding(t)
    requires t.sent <= k && 1 <= k <= BlockCount(t.source)
    ensures Leads(t, steps, u) && OnItsWay(u, k) && u.source == t.source
    decreases k
  {
    if t.sent == k || k == 1 {
      steps, u := FirstBlock(t, k);
    } else {
      steps, u := ReachesBlock(t, k - 1);
      steps, u := NextBlock(t, steps, u, k - 1);
    }
  }

  lemma FirstBlock(t: Transfer, k: nat) returns (steps: seq<Step>, u: Transfer)
    requires t.client.status.Receiving? && t.client.WellFormed() && Outstanding(t)
    requires 1 <= k <= BlockCount(t.source) && (t.sent == k || (k == 1 && t.sent == 0))
    ensures Leads(t, steps, u) && OnItsWay(u, k) && u.source == t.source
  {
    steps, u := [], t;
    if t.sent == 0 {
      steps, u := LeadsOn(t, [], t, ServerAccepts);
    }
  }

  /** The client takes block k and its acknowledgement brings the next one. */
  lemma NextBlock(t: Transfer, steps: seq<Step>, u: Transfer, k: nat) returns (more: seq<Step>, v: Transfer)
    requires Leads(t, steps, u) && OnItsWay(u, k) && k < BlockCount(u.source)
    ensures Leads(t, more, v) && OnItsWay(v, k + 1) && v.source == u.source
  {
    TurnAcknowledges(u, k);
    more, v := LeadsOn(t, steps, u, ClientTurn(Arrive(Data(u.source, k))));
    AckBringsNext(v, k);
    more, v := LeadsOn(t, more, v, ServerHears(Ack(k)));
  }

  lemma LeadsOn(t: Transfer, steps: seq<Step>, u: Transfer, step: Step) returns (more: seq<Step>, v: Transfer)
    requires Leads(t, steps, u) && Enabled(u, step) && step != ClientTurn(OtherEvent)
    ensures more == steps + [step] && v == Apply(u, step) && Leads(t, more, v)
  {
    more, v := steps + [step], Apply(u, step);
    RunExtends(t, steps, step);
  }

  /** Whatever has been lost, duplicated or reordered, as long as the client is receiving its
      download can go on to report success. */
  lemma CanStillFinish(name: seq<byte>, source: seq<byte>, steps: seq<Step>) returns (more: seq<Step>)
    requires NulFree(name) && |name| + 9 <= DECLARED && IsRun(Init(name, source), steps)
    requires After(Init(name, source), steps).client.status.Receiving?
    ensures FinishedRun(name, source, steps + more) && ClientTurn(OtherEvent) !in more
    ensures After(Init(name, source), steps + more).client.status.Saved?
    ensures After(Init(name, source), steps + more).received != []
  {
    var t := After(Init(name, source), steps);
    ReachedInv(name, source, steps);
    OutstandingRun(Init(name, source), steps);
    var last: Transfer;
    more, last := ReachesBlock(t, BlockCount(source));
    TurnAcknowledges(last, BlockCount(source));
    more, last := LeadsOn(t, more, last, ClientTurn(Arrive(Data(source, BlockCount(source)))));
    RunsCompose(Init(name, source), steps, more);
  }

  /** Every source has a run that ends with the client reporting success. */
  lemma SomeRunSaves(name: seq<byte>, source: seq<byte>) returns (steps: seq<Step>)
    requires NulFree(name) && |name| + 9 <= DECLARED
    ensures FinishedRun(name, source, steps) && !EarlyEvent(steps)
    ensures After(Init(name, source), steps).client.status.Saved?
  {
    steps := CanStillFinish(name, source, []);
    assert [] + steps == steps;
    InitInv(name, source);
    UnreadRun(Init(name, source), steps);
  }

  // ---- All or nothing ----

  ghost predicate WholeOrNothing(t: Transfer) {
    t.client.status.Removed? || t.client.file == t.source
  }

  /** Every finished run in which `poll` reports a datagram or a timeout first leaves either no
      file or the whole source. */
  ghost predicate AllOrNothing(name: seq<byte>, source: seq<byte>)
    requires NulFree(name) && |name| + 9 <= DECLARED
  {
    forall steps | FinishedRun(name, source, steps) && !EarlyEvent(steps) ::
      WholeOrNothing(After(Init(name, source), steps))
  }

  ghost predicate AllOrNothingInEveryRun(name: seq<byte>, source: seq<byte>)
    requires NulFree(name) && |name| + 9 <= DECLARED
  {
    forall steps | FinishedRun(name, source, steps) :: WholeOrNothing(After(Init(name, source), steps))
  }

  /** The transfer is all-or-nothing exactly for the intact sources. */
  lemma AllOrNothingIffIntact(name: seq<byte>, source: seq<byte>)
    requires NulFree(name) && |name| + 9 <= DECLARED
    ensures AllOrNothing(name, source) <==> Intact(name, source)
  {
    forall steps | FinishedRun(name, source, steps) && !EarlyEvent(steps) && Intact(name, source)
      ensures WholeOrNothing(After(Init(name, source), steps))
    {
      RunOutcome(name, source, steps);
      ReachedInv(name, source, steps);
    }
    var steps := SomeRunSaves(name, source);
    RunOutcome(name, source, steps);
    ReachedInv(name, source, steps);
  }

  /** An event other than POLLIN before the first datagram ends the loop with an empty file. */
  lemma EarlyEventSavesNothing(name: seq<byte>, source: seq<byte>)
    requires NulFree(name) && |name| + 9 <= DECLARED
    ensures exists steps :: FinishedRun(name, source, steps)
              && After(Init(name, source), steps).client.status.Saved?
              && After(Init(name, source), steps).client.file == []
  {
    RunExtends(Init(name, source), [], ClientTurn(OtherEvent));
    assert FinishedRun(name, source, [] + [ClientTurn(OtherEvent)]);
  }

  /** Over all runs, early events included, only an empty source asked for under a name of
      two bytes is safe. */
  lemma AllOrNothingInEveryRunIff(name: seq<byte>, source: seq<byte>)
    requires NulFree(name) && |name| + 9 <= DECLARED
    ensures AllOrNothingInEveryRun(name, source) <==> source == [] && |name| == 2
  {
    AllOrNothingIffIntact(name, source);
    EarlyEventSavesNothing(name, source);
    forall steps | FinishedRun(name, source, steps)
      ensures After(Init(name, source), steps).source == source
      ensures EarlyEvent(steps) ==> After(Init(name, source), steps).client.file == []
    {
      ReachedInv(name, source, steps);
      RunOutcome(name, source, steps);
    }
    assert AllOrNothingInEveryRun(name, source) ==> AllOrNothing(name, source) && source == [];
  }

  // ---- What an acknowledgement proves ----

  /** An acknowledgement of the outstanding block is only ever sent for a block that has been
      written to the file. */
  ghost predicate AckMeansWritten(name: seq<byte>, source: seq<byte>)
    requires NulFree(name) && |name| + 9 <= DECLARED
  {
    forall steps | IsRun(Init(name, source), steps) ::
      var t := After(Init(name, source), steps);
      t.sent >= 1 && Ack(t.sent) in t.toServer ==> t.sent < t.client.expected
  }

  /** Block 128 is acknowledged like any other, but not written. */
  lemma AcknowledgedNotWritten(name: seq<byte>, source: seq<byte>) returns (steps: seq<Step>)
    requires NulFree(name) && |name| + 9 <= DECLARED && |source| >= 127 * 512
    ensures IsRun(Init(name, source), steps)
    ensures var t := After(Init(name, source), steps);
            t.sent == 128 && Ack(128) in t.toServer && t.client.expected <= 128
  {
    var t: Transfer;
    steps, t := ReachesBlock(Init(name, source), 128);
    TurnAcknowledges(t, 128);
    steps, t := LeadsOn(Init(name, source), steps, t, ClientTurn(Arrive(Data(source, 128))));
    ReachedInv(name, source, steps);
  }

  /** A server may take an acknowledgement for a block written exactly when the source has at
      most 127 blocks. */
  lemma AckMeansWrittenIff(name: seq<byte>, source: seq<byte>)
    requires NulFree(name) && |name| + 9 <= DECLARED
    ensures AckMeansWritten(name, source) <==> |source| < 127 * 512
  {
    if |source| < 127 * 512 {
      forall steps | IsRun(Init(name, source), steps)
        ensures var t := After(Init(name, source), steps);
                t.sent >= 1 && Ack(t.sent) in t.toServer ==> t.sent < t.client.expected
      {
        ReachedInv(name, source, steps);
        var t := After(Init(name, source), steps);
        if Ack(t.sent) in t.toServer {
          AckMeansReceived(t);
        }
      }
    } else {
      var steps := AcknowledgedNotWritten(name, source);
    }
  }

  // ---- Concrete sources that do not survive ----

  /** A two-byte file asked for as "abcdef" is saved with the end of its own name in it. */
  lemma ShortFileKeepsRequestResidue()
    ensures var c := OnDatagram(Started([97, 98, 99, 100, 101, 102]), Data([120, 121], 1));
            c.status == Saved && c.file == [120, 121, 101, 102]
  {
    var name: seq<byte> := [97, 98, 99, 100, 101, 102];
    NulFreeMeans(name);
    NulFreeMeans([120, 121]);
    ShortFileText(name, [120, 121]);
    EndOfName(name);
  }

  lemma EndOfName(name: seq<byte>)
    requires |name| == 6
    ensures RequestResidue(name, 2) == [name[4], name[5]]
  {
  }

  /** A short text is saved with what the request holds behind it. */
  lemma ShortFileText(name: seq<byte>, source: seq<byte>)
    requires NulFree(name) && |name| + 9 <= DECLARED && NulFree(source) && |source| < 512
    ensures var c := OnDatagram(Started(name), Data(source, 1));
            c.status == Saved && c.file == source + RequestResidue(name, |source|)
  {
    ClientAfterData(Started(name), source, 1);
    ShortFileEffect(name, source, OnDatagram(Started(name), Data(source, 1)));
  }

  lemma ShortFileEffect(name: seq<byte>, source: seq<byte>, c': Client)
    requires NulFree(name) && |name| + 9 <= DECLARED && NulFree(source) && |source| < 512
    requires DataEffect(Started(name), source, 1, c')
    ensures c'.status == Saved && c'.file == source + RequestResidue(name, |source|)
  {
    assert |Block(source, 1)| == |source|;
    LastBlockText(source, Started(name).buff[..FULL]);
    RequestText(name, |source|);
  }

  /** A text one byte longer than 127 blocks is cut there and reported as a success. */
  lemma LongFileIsCut(name: seq<byte>, source: seq<byte>)
    requires NulFree(name) && |name| + 9 <= DECLARED && NulFree(source) && |source| > 127 * 512
    ensures exists steps :: FinishedRun(name, source, steps)
              && After(Init(name, source), steps).client.status.Saved?
              && After(Init(name, source), steps).client.file == source[..127 * 512] != source
  {
    var steps := SomeRunSaves(name, source);
    RunOutcome(name, source, steps);
  }
}
