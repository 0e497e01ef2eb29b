/** What a worker of examen/server-pool.c does with one connection: read, upper-case in place,
    send back. */
module RequestHandler {
  import opened Bytes

  const BUFFER := 1024

  /** toupper in the C locale: only a..z change. */
  function ToUpper(b: byte): (u: byte)
    ensures u == 0 <==> b == 0
  {
    if 97 <= b <= 122 then b - 32 else b
  }

  function Upper(s: seq<byte>): (u: seq<byte>)
    ensures |u| == |s| && forall i :: 0 <= i < |s| ==> u[i] == ToUpper(s[i])
  {
    seq(|s|, i requires 0 <= i < |s| => ToUpper(s[i]))
  }

  /** toupper, letter by letter: no lower-case letter is left, and a byte that changes was the
      letter of the same place in the alphabet. */
  lemma UpperLetters(s: seq<byte>)
    ensures |Upper(s)| == |s|
    ensures forall i :: 0 <= i < |s| ==> !('a' as int <= Upper(s)[i] <= 'z' as int)
    ensures forall i :: 0 <= i < |s| && Upper(s)[i] != s[i] ==>
              && 'a' as int <= s[i] <= 'z' as int
              && Upper(s)[i] == "ABCDEFGHIJKLMNOPQRSTUVWXYZ"[s[i] - 'a' as int] as int
  {
  }

  /** The loop asks for strlen again at every turn; no write it makes ever moves the
      terminator, so it ends after upper-casing exactly the text and nothing behind it. */
  method UpperCase(buffer: array<byte>)
    requires StrLen(buffer[..]) < buffer.Length
    modifies buffer
    ensures StrLen(buffer[..]) == old(StrLen(buffer[..]))
    ensures CText(buffer[..]) == Upper(old(CText(buffer[..])))
    ensures forall i :: 0 <= i < StrLen(buffer[..]) ==>
              && !('a' as int <= buffer[i] <= 'z' as int)
              && (buffer[i] != old(buffer[i]) ==>
                    && 'a' as int <= old(buffer[i]) <= 'z' as int
                    && buffer[i] == "ABCDEFGHIJKLMNOPQRSTUVWXYZ"[old(buffer[i]) - 'a' as int] as int)
    ensures buffer[StrLen(buffer[..])..] == old(buffer[StrLen(buffer[..])..])
  {
    ghost var s := buffer[..];
    ghost var n := StrLen(s);
    StrLenMeans(s);
    assert forall k :: 0 <= k < n ==> s[k] == CText(s)[k] != 0;
    var i := 0;
    while i < StrLen(buffer[..])
      invariant 0 <= i <= n == StrLen(buffer[..])
      invariant forall k :: 0 <= k < i ==> buffer[k] == ToUpper(s[k])
      invariant forall k :: i <= k < buffer.Length ==> buffer[k] == s[k]
    {
      buffer[i] := ToUpper(buffer[i]);
      i := i + 1;
      StrLenUnique(buffer[..], n);
    }
    assert buffer[n..] == s[n..];
    SentLetters(s, buffer[..n]);
  }

  /** handle_request, between the read and the close: what is sent for what was received. A
      received text that fills the buffer must bring its own terminator. */
  method Handle(received: seq<byte>) returns (sent: seq<byte>)
    requires |received| <= BUFFER && (|received| < BUFFER || !NulFree(received))
    ensures sent == Upper(CText(received)) && NulFree(sent)
    ensures |sent| == StrLen(received)
    ensures forall i :: 0 <= i < |sent| ==>
              && !('a' as int <= sent[i] <= 'z' as int)
              && (sent[i] != received[i] ==>
                    && 'a' as int <= received[i] <= 'z' as int
                    && sent[i] == "ABCDEFGHIJKLMNOPQRSTUVWXYZ"[received[i] - 'a' as int] as int)
  {
    var buffer := new byte[BUFFER](_ => 0);
    forall i | 0 <= i < |received| {
      buffer[i] := received[i];
    }
    TextInBuffer(received, buffer[..]);
    UpperCase(buffer);
    sent := buffer[..StrLen(buffer[..])];
    assert sent == CText(buffer[..]);
    TextIsNulFree(buffer[..]);
    SentLetters(received, sent);
  }

  lemma SentLetters(received: seq<byte>, sent: seq<byte>)
    requires sent == Upper(CText(received))
    ensures |sent| == StrLen(received)
    ensures forall i :: 0 <= i < |sent| ==>
              && !('a' as int <= sent[i] <= 'z' as int)
              && (sent[i] != received[i] ==>
                    && 'a' as int <= received[i] <= 'z' as int
                    && sent[i] == "ABCDEFGHIJKLMNOPQRSTUVWXYZ"[received[i] - 'a' as int] as int)
  {
    UpperLetters(CText(received));
    assert forall i :: 0 <= i < |sent| ==> CText(received)[i] == received[i];
  }

  lemma TextInBuffer(received: seq<byte>, buffer: seq<byte>)
    requires |received| <= |buffer| && buffer[..|received|] == received
    requires |received| < |buffer| || !NulFree(received)
    requires forall i :: |received| <= i < |buffer| ==> buffer[i] == 0
    ensures StrLen(buffer) < |buffer| && CText(buffer) == CText(received)
  {
    var n := StrLen(received);
    StrLenMeans(received);
    forall i | 0 <= i < n
      ensures buffer[i] != 0
    {
      assert buffer[..|received|][i] == received[i] == CText(received)[i];
    }
    assert n < |received| ==> buffer[..|received|][n] == 0;
    StrLenUnique(buffer, n);
    assert buffer[..n] == buffer[..|received|][..n];
  }
}
