/** The bytes fed to the message authentication code: two hand-written transcripts against the
    construction of section 2.8 of RFC 8439. */
module MacFeed {

  import opened Bytes

  const BLOCK := 16

  // ----- section 2.8 of RFC 8439 -----

  function Zeros(n: nat): (r: seq<Byte>)
    ensures |r| == n && forall i :: 0 <= i < n ==> r[i] == 0
  {
    if n == 0 then [] else Zeros(n - 1) + [0]
  }

  /** How many zeros complete the last block. */
  function Padding(n: nat): nat {
    (BLOCK - n % BLOCK) % BLOCK
  }

  function MacInput(aad: seq<Byte>, text: seq<Byte>): seq<Byte> {
    aad + Zeros(Padding(|aad|)) + text + Zeros(Padding(|text|)) + LittleEndian(|aad|, 8) + LittleEndian(|text|, 8)
  }

  // ----- the authenticator context -----

  class Poly1305Context {
    var fed: seq<Byte>

    constructor ()
      ensures fed == []
    {
      fed := [];
    }

    method Update(bytes: seq<Byte>)
      modifies this
      ensures fed == old(fed) + bytes
    {
      fed := fed + bytes;
    }
  }

  datatype DataType = WithoutLength | WithLength

  /** The additional data of a frame: its two length bytes, in the mode that has them. */
  function AadOf(buf: seq<Byte>, mode: DataType): seq<Byte>
    requires mode.WithLength? ==> |buf| >= 2
  {
    if mode.WithLength? then buf[..2] else []
  }

  function TextOf(buf: seq<Byte>, len: nat, mode: DataType): seq<Byte>
    requires |buf| >= len + if mode.WithLength? then 2 else 0
  {
    if mode.WithLength? then buf[2..2 + len] else buf[..len]
  }

  /** Together they are the frame, each byte once. */
  lemma FrameIsCovered(buf: seq<Byte>, len: nat, mode: DataType)
    requires |buf| == len + if mode.WithLength? then 2 else 0
    ensures AadOf(buf, mode) + TextOf(buf, len, mode) == buf
    ensures |AadOf(buf, mode)| == (if mode.WithLength? then 2 else 0) && |TextOf(buf, len, mode)| == len
  {
  }

  /** Poly1305_GenKey: feeds a frame piece by piece; frames under two bytes are refused. */
  method Poly1305GenKey(context: Poly1305Context, buf: seq<Byte>, len: nat, mode: DataType) returns (ok: bool)
    requires len < 65536 && |buf| >= len + if mode.WithLength? then 2 else 0
    requires context.fed == []
    modifies context
    ensures ok <==> len >= 2
    ensures ok ==> context.fed == MacInput(AadOf(buf, mode), TextOf(buf, len, mode))
    ensures !ok ==> context.fed == []
  {
    hide LittleEndian, Zeros, Padding;
    if len < 2 {
      return false;
    }
    FeedFrame(context, buf, len, mode);
    FeedLengths(context, len, mode);
    return true;
  }

  method FeedFrame(context: Poly1305Context, buf: seq<Byte>, len: nat, mode: DataType)
    requires |buf| >= len + if mode.WithLength? then 2 else 0
    modifies context
    ensures var aad, text := AadOf(buf, mode), TextOf(buf, len, mode);
            context.fed == old(context.fed) + (aad + Zeros(Padding(|aad|)) + text + Zeros(Padding(len)))
  {
    hide Zeros;
    var waste := Zeros(16);
    ghost var start, aad, text := context.fed, AadOf(buf, mode), TextOf(buf, len, mode);
    if mode.WithLength? {
      context.Update([buf[0]]);
      context.Update([buf[1]]);
      context.Update(waste[..14]);
      ZerosPrefix(16, 14);
      assert context.fed == start + (aad + Zeros(Padding(|aad|)));
      context.Update(buf[2..2 + len]);
    } else {
      context.Update(buf[..len]);
    }
    assert context.fed == start + (aad + Zeros(Padding(|aad|)) + text);
    if len % 16 > 0 {
      ZerosPrefix(16, 16 - len % 16);
      context.Update(waste[..16 - len % 16]);
    }
  }

  method FeedLengths(context: Poly1305Context, len: nat, mode: DataType)
    requires len < 65536
    modifies context
    ensures context.fed == old(context.fed) + LittleEndian(if mode.WithLength? then 2 else 0, 8) + LittleEndian(len, 8)
  {
    hide Zeros, LittleEndian;
    var waste := Zeros(16);
    var lenByte: Byte := if mode.WithLength? then 2 else 0;
    context.Update([lenByte]);
    context.Update(waste[..7]);
    context.Update([len % 256]);
    context.Update([len / 256]);
    context.Update(waste[..6]);
    SmallLength(lenByte);
    SmallLength(len);
    ZerosPrefix(16, 7);
    ZerosPrefix(16, 6);
  }

  /** The feed written out in broadcastMessage. */
  method BroadcastFeed(context: Poly1305Context, reply: seq<Byte>, data: seq<Byte>)
    requires context.fed == [] && |reply| == 2
    modifies context
    ensures context.fed == BroadcastInput(reply, data)
  {
    hide LittleEndian, Zeros;
    var waste := Zeros(16);
    context.Update(reply);
    context.Update(waste[..14]);
    context.Update(data);
    context.Update(waste[..16 - |data| % 16]);
    context.Update(LittleEndian(2, 8));
    context.Update(LittleEndian(|data|, 8));
    ZerosPrefix(16, 14);
    ZerosPrefix(16, 16 - |data| % 16);
  }

  function BroadcastInput(reply: seq<Byte>, data: seq<Byte>): seq<Byte> {
    reply + Zeros(14) + data + Zeros(BLOCK - |data| % BLOCK) + LittleEndian(2, 8) + LittleEndian(|data|, 8)
  }

  lemma {:induction false} ZerosPrefix(n: nat, k: nat)
    requires k <= n
    ensures Zeros(n)[..k] == Zeros(k)
  {
  }

  /** The length fields as the code writes them, one or two bytes and then zeros. */
  lemma SmallLength(n: nat)
    requires n < 65536
    ensures LittleEndian(n, 8) == [n % 256] + [n / 256] + Zeros(6)
    ensures n < 256 ==> LittleEndian(n, 8) == [n] + Zeros(7)
  {
    hide LittleEndian, Zeros;
    var high := n / 256;
    LittleEndianStep(n, 8);
    LittleEndianStep(high, 7);
    SmallTail(6);
    SmallTail(7);
    assert high % 256 == high && high / 256 == 0;
  }

  lemma {:induction false} SmallTail(k: nat)
    ensures LittleEndian(0, k) == Zeros(k)
  {
    if k > 0 {
      SmallTail(k - 1);
      assert LittleEndian(0, k) == [0] + Zeros(k - 1);
    }
  }

  // ----- the input identifies the frame -----

  /** Two different pairs of additional data and text never give the same input. */
  lemma MacInputInjective(aad: seq<Byte>, text: seq<Byte>, aad': seq<Byte>, text': seq<Byte>)
    requires |aad| < Power256(8) && |text| < Power256(8) && |aad'| < Power256(8) && |text'| < Power256(8)
    requires MacInput(aad, text) == MacInput(aad', text')
    ensures aad == aad' && text == text'
  {
    hide LittleEndian, Power256, Zeros, Padding;
    var m, m' := MacInput(aad, text), MacInput(aad', text');
    var n := |m|;
    assert m[n - 16..n - 8] == LittleEndian(|aad|, 8) && m[n - 8..] == LittleEndian(|text|, 8);
    assert m'[n - 16..n - 8] == LittleEndian(|aad'|, 8) && m'[n - 8..] == LittleEndian(|text'|, 8);
    LittleEndianInjective(|aad|, |aad'|, 8);
    LittleEndianInjective(|text|, |text'|, 8);
    var i := |aad| + Padding(|aad|);
    assert m[..|aad|] == aad && m'[..|aad|] == aad';
    assert m[i..i + |text|] == text && m'[i..i + |text|] == text';
  }

  /** The feed of broadcastMessage is the standard input if and only if the data does not end on a
      block boundary: there it adds a whole block of zeros. */
  lemma BroadcastIsStandardIff(reply: seq<Byte>, data: seq<Byte>)
    requires |reply| == 2
    ensures BroadcastInput(reply, data) == MacInput(reply, data) <==> |data| % BLOCK != 0
  {
    hide LittleEndian;
    assert Padding(2) == 14;
    if |data| % BLOCK == 0 {
      assert |BroadcastInput(reply, data)| == |MacInput(reply, data)| + BLOCK;
    }
  }
}
