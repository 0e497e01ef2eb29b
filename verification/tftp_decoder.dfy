/** The TFTP decoder of examen2/etftp.c, and the packets of udp/tftpp.c that it reads. */
module TftpDecoder {
  import opened Bytes
  import opened TftpClient
  import opened TftpTransfer

  datatype Reply = Nothing | Text(text: seq<byte>)

  function OpCode(msg: seq<byte>): (v: nat)
    requires |msg| >= 2
  {
    BigEndian(msg[..2])
  }

  /** What the source needs of its caller: an opcode, and then a terminated name or a block
      number. */
  predicate Readable(msg: seq<byte>) {
    && |msg| >= 2
    && (OpCode(msg) == 1 ==> StrLen(msg[2..]) < |msg| - 2)
    && (OpCode(msg) == 4 ==> |msg| >= 4)
  }

  function Decoded(msg: seq<byte>): (r: Reply)
    requires Readable(msg)
  {
    if OpCode(msg) == 1 then Text(CText(msg[2..]))
    else if OpCode(msg) == 4 then Text(Decimal(BigEndian(msg[2..4])))
    else Nothing
  }

  method Tftp(msg: array<byte>, resultado: array<byte>) returns (ret: int)
    requires msg != resultado && Readable(msg[..])
    requires Decoded(msg[..]).Text? ==> |Decoded(msg[..]).text| < resultado.Length
    modifies resultado
    ensures match Decoded(old(msg[..]))
            case Nothing => ret == 0 && resultado[..] == old(resultado[..])
            case Text(text) => ret == 1 && CText(resultado[..]) == text
  {
    assert msg[0..2] == msg[..][..2];
    var tipoPaquete := LoadReversed(msg, 0, 2);
    ReverseThenLoad(msg[0..2]);
    if tipoPaquete == 1 {
      CopyName(msg, resultado);
      return 1;
    } else if tipoPaquete == 4 {
      assert msg[2..4] == msg[..][2..4];
      var nb := LoadReversed(msg, 2, 2);
      ReverseThenLoad(msg[2..4]);
      DecimalIsText(nb);
      PrintResult(resultado, Decimal(nb));
      return 1;
    }
    return 0;
  }

  /** The loop that copies the name up to its terminator. */
  method CopyName(msg: array<byte>, resultado: array<byte>)
    requires msg != resultado && 2 <= msg.Length
    requires StrLen(msg[..][2..]) < msg.Length - 2 && StrLen(msg[..][2..]) < resultado.Length
    modifies resultado
    ensures CText(resultado[..]) == CText(old(msg[2..]))
  {
    ghost var name := msg[..][2..];
    var index, indexName := 2, 0;
    StrLenMeans(name);
    while msg[index] != 0
      invariant index == 2 + indexName && indexName <= StrLen(name)
      invariant resultado[..indexName] == name[..indexName]
      decreases StrLen(name) - indexName
    {
      assert name[indexName] == msg[index];
      resultado[indexName] := msg[index];
      indexName, index := indexName + 1, index + 1;
    }
    assert name[indexName] == 0;
    resultado[indexName] := 0;
    StrLenUnique(name, indexName);
    forall i | 0 <= i < indexName
      ensures resultado[..][i] != 0
    {
      assert resultado[..indexName][i] == name[i];
    }
    StrLenUnique(resultado[..], indexName);
  }

  // ---- What is printed ----

  /** Said of the bytes: only requests to read and acknowledgements give a text, and that is
      what stands behind the opcode up to its terminator, or the block number in decimal. */
  lemma TextExactly(msg: seq<byte>)
    requires Readable(msg)
    ensures Decoded(msg).Text? <==> msg[0] == 0 && (msg[1] == 1 || msg[1] == 4)
    ensures msg[0] == 0 && msg[1] == 1 ==>
              var name := Decoded(msg).text;
              && NulFree(name) && 2 + |name| < |msg|
              && msg[2..2 + |name|] == name && msg[2 + |name|] == 0
    ensures msg[0] == 0 && msg[1] == 4 ==>
              && |msg| >= 4 && IsNumeral(Decoded(msg).text)
              && ReadDigits(Decoded(msg).text) == 256 * (msg[2] as nat) + msg[3] as nat
  {
    FirstBytes(msg);
    if msg[0] == 0 && msg[1] == 1 {
      NameIsText(msg);
    } else if msg[0] == 0 && msg[1] == 4 {
      assert msg[2..4] == [msg[2], msg[3]];
      TwoBytes(msg[2], msg[3]);
      DecimalExact(256 * (msg[2] as nat) + msg[3] as nat, Decoded(msg).text);
    }
  }

  lemma FirstBytes(msg: seq<byte>)
    requires |msg| >= 2
    ensures OpCode(msg) == 256 * (msg[0] as nat) + msg[1] as nat
  {
    assert msg[..2] == [msg[0], msg[1]];
    TwoBytes(msg[0], msg[1]);
  }

  lemma NameIsText(msg: seq<byte>)
    requires |msg| >= 2 && StrLen(msg[2..]) < |msg| - 2
    ensures var name := CText(msg[2..]);
            && NulFree(name) && 2 + |name| < |msg|
            && msg[2..2 + |name|] == name && msg[2 + |name|] == 0
  {
    StrLenMeans(msg[2..]);
    TextIsNulFree(msg[2..]);
  }

  /** The decoder prints nothing for what a server sends. */
  lemma ServerGivesNothing(source: seq<byte>, k: nat, error: seq<byte>)
    requires 1 <= k <= BlockCount(source) && IsError(error)
    ensures Readable(Data(source, k)) && Decoded(Data(source, k)) == Nothing
    ensures Readable(error) && Decoded(error) == Nothing
  {
    FirstBytes(Data(source, k));
    FirstBytes(error);
  }

  // ---- Round trips between the two programs ----

  /** The decoder reads back the name of every request the client can build. */
  lemma RequestRoundTrip(name: seq<byte>)
    requires NulFree(name)
    ensures Readable(Rrq(name)) && Decoded(Rrq(name)) == Text(name)
  {
    var msg, rest := Rrq(name), OCTET + [0];
    assert msg[..2] == [0, 1];
    assert [0, 1][..1] == [0];
    assert BigEndian([0]) == 256 * BigEndian([]) + 0;
    assert msg[2..] == name + [0] + rest;
    CTextTerminated(name, rest);
    assert StrLen(msg[2..]) == |CText(msg[2..])|;
  }

  /** The two bytes of a block number read back, and so does the text printed for them. */
  lemma AckRoundTrip(k: nat)
    requires k < 0x1_0000
    ensures Readable(Ack(k)) && Decoded(Ack(k)).Text?
    ensures ReadDecimal(Decoded(Ack(k)).text) == k
  {
    AckFields(k);
    DecimalReads(k);
  }

  lemma AckFields(k: nat)
    requires k < 0x1_0000
    ensures OpCode(Ack(k)) == 4 && BigEndian(Ack(k)[2..4]) == k
  {
    AckSlices(k);
    TwoBytes(0, 4);
    TwoBytes(k / 256, k % 256);
  }

  lemma AckSlices(k: nat)
    requires k < 0x1_0000
    ensures Ack(k)[..2] == [0, 4] && Ack(k)[2..4] == [k / 256, k % 256]
  {
  }

  lemma TwoBytes(high: byte, low: byte)
    ensures BigEndian([high, low]) == 256 * high + low
  {
    assert [high, low][..1] == [high];
    assert BigEndian([high]) == 256 * BigEndian([]) + high;
  }

  /** Whatever block up to 65535 the server sends, the client's answer to it is a packet from
      which the decoder prints that block's number. */
  lemma AnsweredBlockIsPrinted(c: Client, source: seq<byte>, k: nat)
    requires c.WellFormed() && 1 <= k <= BlockCount(source) && k < 0x1_0000
    ensures |AcksFor(c, Data(source, k))| == 1
    ensures var ack := AcksFor(c, Data(source, k))[0];
            Readable(ack) && Decoded(ack).Text? && ReadDecimal(Decoded(ack).text) == k
  {
    ClientAfterData(c, source, k);
    AckRoundTrip(k);
  }
}
