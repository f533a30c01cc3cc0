/** Packets survive the line: marks appear only at the ends, a frame found in noise decodes to what
    was sent, and a damaged byte is noticed. */
module SerialTheorems {
  import opened Bytes
  import opened SerialLink

  // ----- the marks -----

  lemma {:induction false} EscapeHasNoMarks(s: seq<Byte>)
    ensures STX !in Escape(s) && ETX !in Escape(s)
  {
    if s != [] {
      EscapeHasNoMarks(s[..|s| - 1]);
    }
  }

  lemma EscapeByteHasNoMarks(b: Byte)
    ensures STX !in EscapeByte(b) && ETX !in EscapeByte(b)
  {
  }

  /** The start mark is only the first byte of a frame and the end mark only its last. */
  lemma MarksOnlyAtEnds(command: nat, page: nat, payload: seq<Byte>)
    ensures var f := Frame(command, page, payload);
            && |f| >= 7 && f[0] == STX && f[|f| - 1] == ETX
            && forall i :: 0 < i < |f| - 1 ==> f[i] != STX && f[i] != ETX
    ensures |Frame(command, page, payload)| <= 12 + 2 * |payload|
  {
    hide Escape, Checksum, Header, EscapeByte;
    var body := Body(command, page, payload);
    EscapeHasNoMarks(Header(command, page, |payload|) + payload);
    var sum := EscapeByte(Checksum([STX] + body));
    EscapeByteHasNoMarks(Checksum([STX] + body));
    var f := Frame(command, page, payload);
    assert f == [STX] + body + sum + [ETX];
    forall i | 0 < i < |f| - 1 ensures f[i] != STX && f[i] != ETX {
      if i <= |body| {
        assert f[i] == body[i - 1] && body[i - 1] in body;
      } else {
        assert f[i] == sum[i - 1 - |body|] && sum[i - 1 - |body|] in sum;
      }
    }
  }

  // ----- decoding what was encoded -----

  lemma UnescapeByteOf(b: Byte, rest: seq<Byte>, size: nat)
    ensures Unescape(EscapeByte(b) + rest, size + 1) == Prefixed(b, |EscapeByte(b)|, Unescape(rest, size))
  {
    var s := EscapeByte(b) + rest;
    if Special(b) {
      assert s[2..] == rest && s[1] == Shifted(b) && Unshifted(Shifted(b)) == b;
    } else {
      assert s[1..] == rest;
    }
  }

  lemma EscapeSnoc(s: seq<Byte>, b: Byte)
    ensures Escape(s + [b]) == Escape(s) + EscapeByte(b)
  {
    hide EscapeByte;
    assert (s + [b])[..|s|] == s;
  }

  lemma {:induction false} EscapeConcat(a: seq<Byte>, b: seq<Byte>)
    ensures Escape(a + b) == Escape(a) + Escape(b)
    decreases |b|
  {
    hide Escape, EscapeByte;
    if b == [] {
      assert a + b == a;
      EscapeNothing();
    } else {
      var n := |b| - 1;
      EscapeConcat(a, b[..n]);
      EscapeSnoc(a + b[..n], b[n]);
      EscapeSnoc(b[..n], b[n]);
      assert a + b == a + b[..n] + [b[n]] && b == b[..n] + [b[n]];
    }
  }

  lemma EscapeNothing()
    ensures Escape([]) == []
  {
  }

  /** Unescaping undoes escaping, whatever follows. */
  lemma {:induction false} UnescapeEscape(s: seq<Byte>, rest: seq<Byte>)
    ensures Unescape(Escape(s) + rest, |s|) == Unescaped(s, |Escape(s)|)
    decreases |s|
  {
    hide Unescape, EscapeByte;
    if s == [] {
      NothingUnescaped(Escape(s) + rest);
    } else {
      EscapeConcat([s[0]], s[1..]);
      EscapeOne(s[0]);
      assert s == [s[0]] + s[1..];
      UnescapeEscape(s[1..], rest);
      UnescapeByteOf(s[0], Escape(s[1..]) + rest, |s| - 1);
      assert Escape(s) + rest == EscapeByte(s[0]) + (Escape(s[1..]) + rest);
    }
  }

  lemma NothingUnescaped(s: seq<Byte>)
    ensures Unescape(s, 0) == Unescaped([], 0)
  {
  }

  /** Where the parts of a frame lie. */
  lemma FrameParts(command: nat, page: nat, payload: seq<Byte>, rest: seq<Byte>)
    ensures var h := Escape(Header(command, page, |payload|));
            var p := Escape(payload);
            var all := Frame(command, page, payload) + rest;
            var end := 1 + |h| + |p|;
            && Body(command, page, payload) == h + p && |all| > end
            && all[..end] == [STX] + h + p
            && all[1..] == h + (p + EscapeByte(Checksum(all[..end])) + [ETX] + rest)
            && all[1 + |h|..] == p + (EscapeByte(Checksum(all[..end])) + [ETX] + rest)
            && all[end..] == EscapeByte(Checksum(all[..end])) + ([ETX] + rest)
  {
    hide *;
    var h, p := Escape(Header(command, page, |payload|)), Escape(payload);
    var sum, tail := EscapeByte(Checksum([STX] + h + p)), [ETX] + rest;
    FrameText(command, page, payload);
    var all := Frame(command, page, payload) + rest;
    Regroup([STX] + h + p + sum, [ETX], rest);
    Parts([STX], h, p, sum, tail, all);
  }

  lemma FrameText(command: nat, page: nat, payload: seq<Byte>)
    ensures var h, p := Escape(Header(command, page, |payload|)), Escape(payload);
            && Body(command, page, payload) == h + p
            && Frame(command, page, payload) == [STX] + h + p + EscapeByte(Checksum([STX] + h + p)) + [ETX]
  {
    hide *;
    BodyText(command, page, payload);
    FrameOfBody(command, page, payload);
    Regroup([STX], Escape(Header(command, page, |payload|)), Escape(payload));
  }

  lemma BodyText(command: nat, page: nat, payload: seq<Byte>)
    ensures Body(command, page, payload) == Escape(Header(command, page, |payload|)) + Escape(payload)
  {
    hide Escape, Header;
    EscapeConcat(Header(command, page, |payload|), payload);
  }

  lemma FrameOfBody(command: nat, page: nat, payload: seq<Byte>)
    ensures var body := [STX] + Body(command, page, payload);
            Frame(command, page, payload) == body + EscapeByte(Checksum(body)) + [ETX]
  {
  }

  lemma Regroup(a: seq<Byte>, b: seq<Byte>, c: seq<Byte>)
    ensures a + (b + c) == a + b + c
  {
  }

  lemma Parts(a: seq<Byte>, h: seq<Byte>, p: seq<Byte>, sum: seq<Byte>, rest: seq<Byte>, all: seq<Byte>)
    requires all == a + h + p + sum + rest
    ensures all[..|a| + |h| + |p|] == a + h + p
    ensures all[|a|..] == h + (p + sum + rest)
    ensures all[|a| + |h|..] == p + (sum + rest)
    ensures all[|a| + |h| + |p|..] == sum + rest
  {
  }

  /** Decoding a frame reads the length field, then that many payload bytes. */
  lemma DecodeFrame(command: nat, page: nat, payload: seq<Byte>, rest: seq<Byte>)
    requires command < 65536 && |payload| < PAYLOAD_MAX
    ensures Decode(Frame(command, page, payload) + rest) == Packet(command, payload)
  {
    hide Escape, Unescape, EscapeByte, Checksum, Frame;
    var header := Header(command, page, |payload|);
    var all := Frame(command, page, payload) + rest;
    FrameParts(command, page, payload, rest);
    var h, p := Escape(header), Escape(payload);
    var end := 1 + |h| + |p|;
    var sum := Checksum(all[..end]);
    UnescapeEscape(header, p + EscapeByte(sum) + [ETX] + rest);
    UnescapeEscape(payload, EscapeByte(sum) + [ETX] + rest);
    EscapeOne(sum);
    UnescapeEscape([sum], [ETX] + rest);
    assert Word(header[0], header[1]) == command;
  }

  lemma {:induction false} IndexAfterJunk(junk: seq<Byte>, tail: seq<Byte>, b: Byte, i: nat)
    requires i <= |junk| && b !in junk && tail != [] && tail[0] == b
    ensures IndexOf(junk + tail, b, i) == |junk|
    decreases |junk| - i
  {
    if i < |junk| {
      assert junk[i] in junk;
      IndexAfterJunk(junk, tail, b, i + 1);
    }
  }

  /** A frame sent after bytes without a start mark, with anything behind it, is received as the
      command and payload that were sent. */
  lemma ReceiveFrame(junk: seq<Byte>, command: nat, page: nat, payload: seq<Byte>, suffix: seq<Byte>)
    requires STX !in junk && command < 65536 && |payload| < PAYLOAD_MAX
    ensures Receive(junk + Frame(command, page, payload) + suffix) == Packet(command, payload)
  {
    hide Frame, Decode, IndexOf;
    var frame := Frame(command, page, payload);
    var tail := frame + suffix;
    var buf := junk + frame + suffix;
    assert buf == junk + tail;
    MarksOnlyAtEnds(command, page, payload);
    IndexAfterJunk(junk, tail, STX, 0);
    var e := |junk| + |frame| - 1;
    assert buf[e] == ETX;
    var j := IndexOf(buf, ETX, |junk| + 1);
    assert forall m :: |junk| + 1 <= m < j ==> buf[m] in buf[|junk| + 1..j];
    assert buf[|junk|..] == tail;
    DecodeFrame(command, page, payload, suffix);
  }

  /** The length field of a packet of 64 bytes or more reads 0: such a packet never decodes to what
      was sent. */
  lemma DecodeFrameIff(command: nat, page: nat, payload: seq<Byte>, rest: seq<Byte>)
    requires command < 65536
    ensures Decode(Frame(command, page, payload) + rest) == Packet(command, payload) <==> |payload| < PAYLOAD_MAX
  {
    hide Escape, Unescape, EscapeByte, Checksum, Frame;
    if |payload| < PAYLOAD_MAX {
      DecodeFrame(command, page, payload, rest);
    } else {
      var header := Header(command, page, |payload|);
      var all := Frame(command, page, payload) + rest;
      FrameParts(command, page, payload, rest);
      var h := Escape(header);
      UnescapeEscape(header, Escape(payload) + EscapeByte(Checksum(all[..1 + |h| + |Escape(payload)|])) + [ETX] + rest);
      assert header[2] == 0 && Announced(header[2]) == 0;
      var r := Decode(all);
      assert r.Packet? ==> |r.payload| == 0;
    }
  }

  // ----- damage -----

  /** Replacing a byte that is not an escape mark by another leaves the reading positions alone. */
  lemma {:induction false} DamageKeepsPositions(s: seq<Byte>, size: nat, k: nat, x: Byte)
    requires k < |s| && s[k] != ESC && x != ESC && Unescape(s, size).Unescaped?
    ensures Unescape(s[k := x], size).Unescaped?
    ensures Unescape(s[k := x], size).used == Unescape(s, size).used
    decreases size
  {
    if size > 0 {
      var n := if s[0] == ESC then 2 else 1;
      if k >= n {
        DamageKeepsPositions(s[n..], size - 1, k - n, x);
        assert s[k := x][n..] == s[n..][k - n := x];
      } else {
        assert s[k := x][n..] == s[n..];
      }
    }
  }

  /** Only what lies in the bytes read matters. */
  lemma {:induction false} UnescapeLocal(s: seq<Byte>, t: seq<Byte>, size: nat)
    requires Unescape(s, size).Unescaped?
    requires |t| >= Unescape(s, size).used && t[..Unescape(s, size).used] == s[..Unescape(s, size).used]
    ensures Unescape(t, size) == Unescape(s, size)
    decreases size
  {
    if size > 0 {
      var n := if s[0] == ESC then 2 else 1;
      var used := Unescape(s, size).used;
      assert used == n + Unescape(s[n..], size - 1).used;
      assert t[0] == t[..used][0] == s[0] && (n == 2 ==> t[1] == t[..used][1] == s[1]);
      assert t[n..][..used - n] == t[..used][n..] && s[n..][..used - n] == s[..used][n..];
      UnescapeLocal(s[n..], t[n..], size - 1);
    }
  }

  /** The first decoded byte and the bytes it took. */
  lemma UnescapeFirst(s: seq<Byte>, size: nat)
    requires size > 0 && s != []
    ensures var n := if s[0] == ESC then 2 else 1;
            && (|s| < n ==> Unescape(s, size).Overrun?)
            && (|s| >= n ==>
                  Unescape(s, size) ==
                  Prefixed(if n == 2 then Unshifted(s[1]) else s[0], n, Unescape(s[n..], size - 1)))
  {
  }

  /** Decoding a bytes and then b bytes from where that stopped. */
  function Both(s: seq<Byte>, a: nat, b: nat): Unescaped {
    var first := Unescape(s, a);
    if first.Overrun? then Overrun
    else
      var second := Unescape(s[first.used..], b);
      if second.Overrun? then Overrun else Unescaped(first.bytes + second.bytes, first.used + second.used)
  }

  lemma PrefixedAssoc(c: Byte, n: nat, first: Unescaped, second: Unescaped)
    requires first.Unescaped? && second.Unescaped?
    ensures Prefixed(c, n, Unescaped(first.bytes + second.bytes, first.used + second.used)) ==
            Unescaped(Prefixed(c, n, first).bytes + second.bytes, Prefixed(c, n, first).used + second.used)
  {
    assert [c] + first.bytes + second.bytes == [c] + (first.bytes + second.bytes);
  }

  lemma BothStep(s: seq<Byte>, a: nat, b: nat)
    requires a > 0 && s != [] && (s[0] == ESC ==> |s| >= 2)
    ensures var n := if s[0] == ESC then 2 else 1;
            Both(s, a, b) == Prefixed(if n == 2 then Unshifted(s[1]) else s[0], n, Both(s[n..], a - 1, b))
  {
    UnescapeFirst(s, a);
    hide Unescape;
    var n := if s[0] == ESC then 2 else 1;
    var c := if n == 2 then Unshifted(s[1]) else s[0];
    var first := Unescape(s[n..], a - 1);
    if first.Unescaped? {
      assert s[n..][first.used..] == s[n + first.used..];
      var second := Unescape(s[n + first.used..], b);
      if second.Unescaped? {
        PrefixedAssoc(c, n, first, second);
      }
    }
  }

  lemma BothZero(s: seq<Byte>, b: nat)
    ensures Both(s, 0, b) == Unescape(s, b)
  {
    assert s[0..] == s;
    var r := Unescape(s, b);
    if r.Unescaped? {
      assert [] + r.bytes == r.bytes;
    }
  }

  lemma {:induction false} BothIsWhole(s: seq<Byte>, a: nat, b: nat, total: nat)
    requires total == a + b && Unescape(s, total).Unescaped?
    ensures Both(s, a, b) == Unescape(s, total)
    decreases a
  {
    if a == 0 {
      BothZero(s, b);
    } else {
      UnescapeFirst(s, total);
      hide Unescape;
      hide Both;
      BothStep(s, a, b);
      var n := if s[0] == ESC then 2 else 1;
      BothIsWhole(s[n..], a - 1, b, total - 1);
    }
  }

  lemma UnescapeSplit(s: seq<Byte>, a: nat, b: nat)
    requires Unescape(s, a + b).Unescaped?
    ensures Unescape(s, a).Unescaped? && Unescape(s[Unescape(s, a).used..], b).Unescaped?
    ensures Both(s, a, b) == Unescape(s, a + b)
  {
    hide Unescape;
    BothIsWhole(s, a, b, a + b);
  }

  lemma {:induction false} ChecksumDiffers(s: seq<Byte>, k: nat, x: Byte)
    requires k < |s| && x != s[k]
    ensures Checksum(s[k := x]) != Checksum(s)
    decreases |s|
  {
    var n := |s| - 1;
    if k < n {
      ChecksumDiffers(s[..n], k, x);
      assert s[k := x][..n] == s[..n][k := x];
      AddModInjective(Checksum(s[..n]), Checksum(s[..n][k := x]), s[n]);
    } else {
      assert s[k := x][..n] == s[..n];
      AddModInjective(s[n], x, Checksum(s[..n]));
    }
  }

  lemma AddModInjective(a: Byte, b: Byte, c: Byte)
    requires a != b
    ensures (a + c) % 256 != (b + c) % 256
  {
  }

  /** Byte offsets, in a packet, of the escaped length field. */
  function LengthField(src: seq<Byte>): (int, int)
    requires |src| > 0 && Unescape(src[1..], 3).Unescaped?
  {
    (1 + Unescape(src[1..], 2).used, 1 + Unescape(src[1..], 3).used)
  }

  /** A damaged header that keeps its length byte announces the same payload. */
  lemma DamagedHeader(s: seq<Byte>, k: nat, x: Byte)
    requires k < |s| && s[k] != ESC && x != ESC && Unescape(s, 4).Unescaped?
    requires !(Unescape(s, 2).used <= k < Unescape(s, 3).used)
    ensures var d := Unescape(s[k := x], 4);
            d.Unescaped? && d.used == Unescape(s, 4).used && d.bytes[2] == Unescape(s, 4).bytes[2]
  {
    hide Unescape;
    var t := s[k := x];
    DamageKeepsPositions(s, 4, k, x);
    UnescapeSplit(s, 2, 2);
    UnescapeSplit(t, 2, 2);
    UnescapeSplit(s, 3, 1);
    var u := Unescape(s, 2).used;
    DamageKeepsPositions(s, 2, k, x);
    UnescapeSplit(s[u..], 1, 1);
    UnescapeSplit(t[u..], 1, 1);
    UnescapeSplit(s, 2, 1);
    var w := Unescape(s[u..], 1).used;
    if k < u {
      assert t[u..] == s[u..];
    } else {
      assert t[u..][..w] == s[u..][..w];
      UnescapeLocal(s[u..], t[u..], 1);
    }
  }

  /** Replacing one byte between the start mark and the checksum, outside the length field and
      with no escape mark involved, is always reported as a checksum error. */
  lemma DamageIsNoticed(src: seq<Byte>, k: nat, x: Byte)
    requires src != [] && Decode(src).Packet?
    requires var header := Unescape(src[1..], 4);
             var payload := Unescape(src[1 + header.used..], Announced(header.bytes[2]));
             1 <= k < 1 + header.used + payload.used
    requires src[k] != ESC && x != ESC && x != src[k]
    requires Unescape(src[1..], 3).Unescaped? ==> !(LengthField(src).0 <= k < LengthField(src).1)
    ensures Decode(src[k := x]) == BadChecksum
  {
    hide Unescape, Checksum, Announced;
    var dst := src[k := x];
    var header := Unescape(src[1..], 4);
    UnescapeSplit(src[1..], 3, 1);
    DamagedHeader(src[1..], k - 1, x);
    assert dst[1..] == src[1..][k - 1 := x];
    var at := 1 + header.used;
    var length := Announced(header.bytes[2]);
    var payload := Unescape(src[at..], length);
    var end := at + payload.used;
    if k < at {
      assert dst[at..] == src[at..];
    } else {
      DamageKeepsPositions(src[at..], length, k - at, x);
      assert dst[at..] == src[at..][k - at := x];
    }
    assert dst[end..] == src[end..];
    assert dst[..end] == src[..end][k := x];
    ChecksumDiffers(src[..end], k, x);
  }

  /** The first `n` header bytes of a frame, as they are read back. */
  lemma HeaderRead(command: nat, page: nat, payload: seq<Byte>, rest: seq<Byte>, n: nat)
    requires n <= 4
    ensures var header := Header(command, page, |payload|);
            Unescape((Frame(command, page, payload) + rest)[1..], n) == Unescaped(header[..n], |Escape(header[..n])|)
  {
    hide Escape, Unescape, EscapeByte, Checksum, Frame, Header;
    var header := Header(command, page, |payload|);
    var all := Frame(command, page, payload) + rest;
    FrameParts(command, page, payload, rest);
    EscapeConcat(header[..n], header[n..]);
    assert header == header[..n] + header[n..];
    var h := Escape(header);
    var tail := all[1 + |h|..];
    assert all[1..] == h + tail == Escape(header[..n]) + (Escape(header[n..]) + tail);
    UnescapeEscape(header[..n], Escape(header[n..]) + tail);
  }

  /** Does byte `k` of the frame belong to the length field? */
  predicate InLengthField(command: nat, page: nat, payload: seq<Byte>, k: nat) {
    var header := Header(command, page, |payload|);
    1 + |Escape(header[..2])| <= k < 1 + |Escape(header[..3])|
  }

  /** The same for a whole frame. */
  lemma FrameDamage(command: nat, page: nat, payload: seq<Byte>, suffix: seq<Byte>, k: nat, x: Byte)
    requires command < 65536 && |payload| < PAYLOAD_MAX
    requires 1 <= k < 1 + |Body(command, page, payload)| && !InLengthField(command, page, payload, k)
    requires k < |Frame(command, page, payload)|
    requires Frame(command, page, payload)[k] != ESC && x != ESC && x != Frame(command, page, payload)[k]
    ensures Decode((Frame(command, page, payload) + suffix)[k := x]) == BadChecksum
  {
    hide Escape, Unescape, EscapeByte, Checksum, Frame, Decode;
    var src := Frame(command, page, payload) + suffix;
    var header := Header(command, page, |payload|);
    DecodeFrame(command, page, payload, suffix);
    HeaderRead(command, page, payload, suffix, 2);
    HeaderRead(command, page, payload, suffix, 3);
    HeaderRead(command, page, payload, suffix, 4);
    assert header[..4] == header;
    FrameParts(command, page, payload, suffix);
    var h, p := Escape(header), Escape(payload);
    UnescapeEscape(payload, EscapeByte(Checksum(src[..1 + |h| + |p|])) + [ETX] + suffix);
    assert src[1 + |h|..] == p + (EscapeByte(Checksum(src[..1 + |h| + |p|])) + [ETX] + suffix);
    DamageIsNoticed(src, k, x);
  }

  /** The header as the board reads it: the command in two bytes, the length of the payload in six
      bits and the page in six bits. */
  lemma HeaderOnWire(command: nat, page: nat, payload: seq<Byte>)
    requires command < 65536 && |payload| < PAYLOAD_MAX
    ensures var header := Unescape(Frame(command, page, payload)[1..], 4);
            && header.Unescaped?
            && Word(header.bytes[0], header.bytes[1]) == command
            && header.bytes[2] == |payload| && header.bytes[3] == page % 64
  {
    hide Unescape, Frame, Header, Word, Escape;
    HeaderRead(command, page, payload, [], 4);
    HeaderBytes(command, page, |payload|);
    assert Frame(command, page, payload) + [] == Frame(command, page, payload);
    assert Header(command, page, |payload|)[..4] == Header(command, page, |payload|);
  }

  lemma HeaderBytes(command: nat, page: nat, length: nat)
    requires command < 65536 && length < PAYLOAD_MAX
    ensures var header := Header(command, page, length);
            Word(header[0], header[1]) == command && header[2] == length && header[3] == page % 64
  {
  }

  /** A frame in which one byte before the checksum has been replaced, outside the length field and
      with no escape mark involved, is reported as a checksum error, even when the new byte is a
      start or an end mark. */
  lemma ReceiveDamaged(junk: seq<Byte>, command: nat, page: nat, payload: seq<Byte>, suffix: seq<Byte>, k: nat, x: Byte)
    requires STX !in junk && command < 65536 && |payload| < PAYLOAD_MAX
    requires 1 <= k < 1 + |Body(command, page, payload)| && !InLengthField(command, page, payload, k)
    requires k < |Frame(command, page, payload)|
    requires Frame(command, page, payload)[k] != ESC && x != ESC && x != Frame(command, page, payload)[k]
    ensures Receive(junk + Frame(command, page, payload)[k := x] + suffix) == BadChecksum
  {
    hide Frame, Decode, IndexOf, Body, InLengthField;
    var frame := Frame(command, page, payload);
    BodyInside(command, page, payload);
    var tail := frame[k := x] + suffix;
    var buf := junk + frame[k := x] + suffix;
    assert buf == junk + tail;
    MarksOnlyAtEnds(command, page, payload);
    IndexAfterJunk(junk, tail, STX, 0);
    var e := |junk| + |frame| - 1;
    assert buf[e] == ETX;
    var j := IndexOf(buf, ETX, |junk| + 1);
    assert forall m :: |junk| + 1 <= m < j ==> buf[m] in buf[|junk| + 1..j];
    assert buf[|junk|..] == tail == (frame + suffix)[k := x];
    FrameDamage(command, page, payload, suffix, k, x);
  }

  lemma BodyInside(command: nat, page: nat, payload: seq<Byte>)
    ensures |Body(command, page, payload)| + 2 < |Frame(command, page, payload)|
  {
  }
}
