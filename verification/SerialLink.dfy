/** Packets on the serial line to the remote-control board: a start mark, an escaped header and
    payload, a checksum over what was sent, and an end mark. */
module SerialLink {

  import opened Bytes

  const STX: Byte := 0x02
  const ETX: Byte := 0x03
  const ESC: Byte := 0x1b
  const ESC_SHIFT := 0x20
  const MAX_PAGE := 2
  const PAYLOAD_MAX := 64
  const PACKET_MAXLEN := 192

  // ----- byte stuffing -----

  predicate Special(b: Byte) {
    b == STX || b == ETX || b == ESC
  }

  /** b | ESC_SHIFT. */
  function Shifted(b: Byte): Byte {
    if (b / ESC_SHIFT) % 2 == 1 then b else b + ESC_SHIFT
  }

  /** b & ~ESC_SHIFT. */
  function Unshifted(b: Byte): Byte {
    if (b / ESC_SHIFT) % 2 == 1 then b - ESC_SHIFT else b
  }

  function EscapeByte(b: Byte): (r: seq<Byte>)
    ensures 1 <= |r| <= 2
  {
    if Special(b) then [ESC, Shifted(b)] else [b]
  }

  function Escape(s: seq<Byte>): (r: seq<Byte>)
    ensures |s| <= |r| <= 2 * |s|
  {
    if s == [] then [] else Escape(s[..|s| - 1]) + EscapeByte(s[|s| - 1])
  }

  /** Decoding `size` bytes: what they are and how many bytes they took, or that the bytes ran out. */
  datatype Unescaped = Overrun | Unescaped(bytes: seq<Byte>, used: nat)

  function Unescape(src: seq<Byte>, size: nat): (r: Unescaped)
    ensures r.Unescaped? ==> |r.bytes| == size && r.used <= |src|
    decreases size
  {
    if size == 0 then Unescaped([], 0)
    else if src == [] then Overrun
    else if src[0] != ESC then Prefixed(src[0], 1, Unescape(src[1..], size - 1))
    else if |src| < 2 then Overrun
    else Prefixed(Unshifted(src[1]), 2, Unescape(src[2..], size - 1))
  }

  function Prefixed(b: Byte, used: nat, rest: Unescaped): Unescaped {
    if rest.Overrun? then Overrun else Unescaped([b] + rest.bytes, used + rest.used)
  }

  function Checksum(s: seq<Byte>): Byte {
    if s == [] then 0 else (Checksum(s[..|s| - 1]) + s[|s| - 1]) % 256
  }

  // ----- packets -----

  function Header(command: nat, page: nat, length: nat): (r: seq<Byte>)
    ensures |r| == 4
  {
    [command % 256, command / 256 % 256, (if length > PAYLOAD_MAX then PAYLOAD_MAX else length) % 64, page % 64]
  }

  /** The escaped header and payload. */
  function Body(command: nat, page: nat, payload: seq<Byte>): seq<Byte> {
    Escape(Header(command, page, |payload|) + payload)
  }

  function Frame(command: nat, page: nat, payload: seq<Byte>): seq<Byte> {
    var body := [STX] + Body(command, page, payload);
    body + EscapeByte(Checksum(body)) + [ETX]
  }

  datatype Received = Incomplete | BadChecksum | Packet(command: int, payload: seq<Byte>)

  /** Two bytes, the low one first. */
  function Word(low: int, high: int): int {
    low + 256 * high
  }

  /** The payload length a header announces, clamped. */
  function Announced(length: int): nat
    requires length >= 0
  {
    if length > PAYLOAD_MAX then PAYLOAD_MAX else length
  }

  /** Decodes the packet whose start mark is the first byte of `src`. */
  function Decode(src: seq<Byte>): Received
    requires src != []
  {
    var header := Unescape(src[1..], 4);
    if header.Overrun? then Incomplete
    else
      var at := 1 + header.used;
      var payload := Unescape(src[at..], Announced(header.bytes[2]));
      if payload.Overrun? then Incomplete
      else
        var end := at + payload.used;
        var sum := Unescape(src[end..], 1);
        if sum.Overrun? then Incomplete
        else if sum.bytes[0] != Checksum(src[..end]) then BadChecksum
        else Packet(Word(header.bytes[0], header.bytes[1]), payload.bytes)
  }

  /** Index of the first `b` at or after `i`, or the length. */
  function IndexOf(s: seq<Byte>, b: Byte, i: nat): (j: nat)
    requires i <= |s|
    ensures i <= j <= |s| && (j < |s| ==> s[j] == b) && b !in s[i..j]
    decreases |s| - i
  {
    if i == |s| || s[i] == b then i else
    assert s[i..IndexOf(s, b, i + 1)] == [s[i]] + s[i + 1..IndexOf(s, b, i + 1)];
    IndexOf(s, b, i + 1)
  }

  /** The receiving side: find a start mark, then an end mark, then decode from the start mark. */
  function Receive(buf: seq<Byte>): Received {
    var start := IndexOf(buf, STX, 0);
    if start == |buf| then Incomplete
    else if IndexOf(buf, ETX, start + 1) == |buf| then Incomplete
    else Decode(buf[start..])
  }

  // ----- the board commander -----

  class Commander {
    var page: nat

    constructor ()
      ensures page == 0
    {
      page := 0;
    }

    /** Copies `src` to `dest` from `at` on, escaping the marks; returns the end. */
    method EscapeCtrl(src: seq<Byte>, dest: array<Byte>, at: nat) returns (end: nat)
      requires at + |Escape(src)| <= dest.Length
      modifies dest
      ensures end == at + |Escape(src)|
      ensures dest[..end] == old(dest[..at]) + Escape(src)
    {
      hide Escape;
      EscapeEmpty();
      end := at;
      for i := 0 to |src|
        invariant end == at + |Escape(src[..i])| <= dest.Length
        invariant dest[..end] == old(dest[..at]) + Escape(src[..i])
      {
        EscapePrefix(src, i);
        ghost var done := dest[..end];
        if Special(src[i]) {
          dest[end] := ESC;
          dest[end + 1] := Shifted(src[i]);
          end := end + 2;
        } else {
          dest[end] := src[i];
          end := end + 1;
        }
        assert dest[..end] == done + EscapeByte(src[i]);
      }
      assert src[..|src|] == src;
    }

    method CalcChecksum(src: seq<Byte>) returns (sum: Byte)
      ensures sum == Checksum(src)
    {
      sum := 0;
      for i := 0 to |src|
        invariant sum == Checksum(src[..i])
      {
        assert src[..i + 1][..i] == src[..i];
        sum := (sum + src[i]) % 256;
      }
      assert src[..|src|] == src;
    }

    /** Writes a packet to `dest`; the page number alternates. */
    method EncodePacket(src: seq<Byte>, dest: array<Byte>, command: nat) returns (length: nat)
      requires |src| + 4 <= PACKET_MAXLEN && command < 65536
      requires |Frame(command, page, src)| <= dest.Length
      modifies dest, this
      ensures length == |Frame(command, old(page), src)|
      ensures dest[..length] == Frame(command, old(page), src)
      ensures page == if old(page) + 1 >= MAX_PAGE then 0 else old(page) + 1
    {
      hide Escape, EscapeByte, Checksum, Header;
      var raw := Header(command, page, |src|) + src;
      ghost var frame := Frame(command, page, src);
      assert frame == [STX] + Escape(raw) + EscapeByte(Checksum([STX] + Escape(raw))) + [ETX];
      dest[0] := STX;
      assert dest[..1] == [STX];
      var at := EscapeCtrl(raw, dest, 1);
      var sum := CalcChecksum(dest[..at]);
      EscapeOne(sum);
      at := EscapeCtrl([sum], dest, at);
      dest[at] := ETX;
      length := at + 1;
      assert dest[..length] == dest[..at] + [ETX];
      page := page + 1;
      if page >= MAX_PAGE {
        page := 0;
      }
    }

    /** Decodes `size` bytes into `dest`; `ok` is false when the received bytes end first. */
    method UnEscapeCtrl(src: seq<Byte>, from: nat, dest: array<Byte>, size: nat) returns (ok: bool, next: nat)
      requires from <= |src| && size <= dest.Length
      modifies dest
      ensures ok == Unescape(src[from..], size).Unescaped?
      ensures ok ==> && next == from + Unescape(src[from..], size).used <= |src|
                     && dest[..size] == Unescape(src[from..], size).bytes
    {
      hide Unescape, Prefixed, Appended;
      next := from;
      AppendedNothing(Unescape(src[from..], size));
      for i := 0 to size
        invariant from <= next <= |src|
        invariant Unescape(src[from..], size) == Appended(dest[..i], next - from, Unescape(src[next..], size - i))
      {
        UnescapeStep(src, next, size - i);
        AppendedOverrun(dest[..i], next - from);
        ghost var before, used := dest[..i], next - from;
        if next == |src| {
          return false, next;
        }
        var b := src[next];
        if src[next] == ESC {
          if next + 1 == |src| {
            return false, next;
          }
          b := Unshifted(src[next + 1]);
          next := next + 1;
        }
        dest[i] := b;
        next := next + 1;
        assert dest[..i + 1] == before + [b];
        AppendedPrefixed(before, used, b, next - from - used, Unescape(src[next..], size - i - 1));
      }
      AppendedEnd(dest[..size], next - from, src[next..]);
      return true, next;
    }

    /** Decodes the packet that starts at the start mark. */
    method DecodePacket(src: seq<Byte>, dest: array<Byte>) returns (r: Received)
      requires src != [] && dest.Length >= PAYLOAD_MAX
      modifies dest
      ensures r == Decode(src)
      ensures r.Packet? ==> dest[..|r.payload|] == r.payload
    {
      hide Unescape, Checksum, Word;
      var header := new Byte[4];
      var ok, at := UnEscapeCtrl(src, 1, header, 4);
      if !ok {
        return Incomplete;
      }
      assert header[..4] == header[..];
      var command := Word(header[0], header[1]);
      var length := Announced(header[2]);
      var end;
      ok, end := UnEscapeCtrl(src, at, dest, length);
      if !ok {
        return Incomplete;
      }
      var sumdest := new Byte[1];
      var next;
      ok, next := UnEscapeCtrl(src, end, sumdest, 1);
      if !ok {
        return Incomplete;
      }
      assert sumdest[..1] == [sumdest[0]];
      var sum := CalcChecksum(src[..end]);
      if sumdest[0] != sum {
        return BadChecksum;
      }
      return Packet(command, dest[..length]);
    }

    /** The scan for the marks in what has been read. */
    method FindPacket(buf: seq<Byte>, dest: array<Byte>) returns (r: Received)
      requires dest.Length >= PAYLOAD_MAX
      modifies dest
      ensures r == Receive(buf)
      ensures r.Packet? ==> dest[..|r.payload|] == r.payload
    {
      var p := 0;
      while p != |buf| && buf[p] != STX
        invariant 0 <= p <= |buf| && IndexOf(buf, STX, 0) == IndexOf(buf, STX, p)
        decreases |buf| - p
      {
        p := p + 1;
      }
      if p == |buf| {
        return Incomplete;
      }
      var bufSTX := p;
      p := p + 1;
      while p != |buf| && buf[p] != ETX
        invariant bufSTX + 1 <= p <= |buf| && IndexOf(buf, ETX, bufSTX + 1) == IndexOf(buf, ETX, p)
        decreases |buf| - p
      {
        p := p + 1;
      }
      if p == |buf| {
        return Incomplete;
      }
      r := DecodePacket(buf[bufSTX..], dest);
    }
  }

  function Appended(head: seq<Byte>, used: int, rest: Unescaped): Unescaped {
    if rest.Overrun? || used < 0 then Overrun else Unescaped(head + rest.bytes, used + rest.used)
  }

  lemma AppendedNothing(rest: Unescaped)
    ensures Appended([], 0, rest) == rest
  {
    if rest.Unescaped? {
      assert [] + rest.bytes == rest.bytes;
    }
  }

  lemma AppendedOverrun(head: seq<Byte>, used: int)
    ensures Appended(head, used, Overrun) == Overrun
  {
  }

  lemma AppendedPrefixed(head: seq<Byte>, used: nat, b: Byte, taken: nat, rest: Unescaped)
    ensures Appended(head, used, Prefixed(b, taken, rest)) == Appended(head + [b], used + taken, rest)
  {
    if rest.Unescaped? {
      assert head + ([b] + rest.bytes) == head + [b] + rest.bytes;
    }
  }

  lemma AppendedEnd(head: seq<Byte>, used: nat, src: seq<Byte>)
    ensures Appended(head, used, Unescape(src, 0)) == Unescaped(head, used)
  {
    assert head + [] == head;
  }

  lemma EscapeEmpty()
    ensures Escape([]) == []
  {
  }

  lemma EscapeOne(b: Byte)
    ensures Escape([b]) == EscapeByte(b)
  {
    assert [b][..0] == [];
  }

  lemma {:induction false} EscapePrefix(s: seq<Byte>, i: nat)
    requires i < |s|
    ensures Escape(s[..i + 1]) == Escape(s[..i]) + EscapeByte(s[i])
    ensures |Escape(s[..i + 1])| <= |Escape(s)|
    decreases |s|
  {
    hide EscapeByte, Escape;
    var n := |s| - 1;
    EscapeLast(s);
    if i < n {
      assert s[..n][..i + 1] == s[..i + 1] && s[..n][..i] == s[..i];
      EscapePrefix(s[..n], i);
    } else {
      assert s[..i + 1] == s;
    }
  }

  lemma EscapeLast(s: seq<Byte>)
    requires s != []
    ensures Escape(s) == Escape(s[..|s| - 1]) + EscapeByte(s[|s| - 1])
  {
  }

  lemma UnescapeStep(src: seq<Byte>, next: nat, size: nat)
    requires next <= |src| && size > 0
    ensures Unescape(src[next..], size) ==
            if next == |src| then Overrun
            else if src[next] != ESC then Prefixed(src[next], 1, Unescape(src[next + 1..], size - 1))
            else if next + 1 == |src| then Overrun
            else Prefixed(Unshifted(src[next + 1]), 2, Unescape(src[next + 2..], size - 1))
  {
    if next < |src| {
      assert src[next..][1..] == src[next + 1..];
      if next + 1 < |src| {
        assert src[next..][2..] == src[next + 2..];
      }
    }
  }
}
