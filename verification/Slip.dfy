/** SLIP framing (src/network/osc.c:672-726; PROTOCOL section of RFC 1055). */
module Slip {
  import opened Bytes

  const END := 0xc0
  const ESC := 0xdb
  const ESC_END := 0xdc
  const ESC_ESC := 0xdd

  function Escape(b: byte): (r: seq<byte>)
    ensures 1 <= |r| <= 2 && END !in r
  {
    if b == END then [ESC, ESC_END] else if b == ESC then [ESC, ESC_ESC] else [b]
  }

  /** The bytes between the two END characters of a frame. */
  function Escaped(s: seq<byte>): (r: seq<byte>)
    ensures |s| <= |r| <= 2 * |s|
  {
    if s == [] then [] else Escape(s[0]) + Escaped(s[1..])
  }

  function Frame(s: seq<byte>): seq<byte> {
    [END] + Escaped(s) + [END]
  }

  /** How many bytes have to be escaped. */
  function Specials(s: seq<byte>): nat {
    if s == [] then 0 else (if s[0] == END || s[0] == ESC then 1 else 0) + Specials(s[1..])
  }

  /** The frame is longer by two END characters and one byte for each END or ESC; no
      END is inside. */
  lemma {:induction false} FrameShape(s: seq<byte>)
    ensures |Frame(s)| == |s| + 2 + Specials(s)
    ensures END !in Escaped(s)
  {
    if s != [] {
      FrameShape(s[1..]);
    }
  }

  lemma {:induction false} EscapedAppend(s: seq<byte>, b: byte)
    ensures Escaped(s + [b]) == Escaped(s) + Escape(b)
  {
    if s == [] {
      assert (s + [b])[1..] == [];
    } else {
      assert (s + [b])[1..] == s[1..] + [b];
      EscapedAppend(s[1..], b);
    }
  }

  lemma {:induction false} EscapedParts(a: seq<byte>, b: seq<byte>)
    ensures Escaped(a + b) == Escaped(a) + Escaped(b)
  {
    if a == [] {
      assert a + b == b;
    } else {
      assert (a + b)[0] == a[0] && (a + b)[1..] == a[1..] + b;
      EscapedParts(a[1..], b);
      hide Escape;
      Associate(Escape(a[0]), Escaped(a[1..]), Escaped(b));
    }
  }

  /** The bytes of a frame: END at both ends, and what each byte between them becomes. */
  lemma FrameBytes(a: seq<byte>, b: byte, c: seq<byte>)
    ensures Frame([]) == [0xc0, 0xc0]
    ensures Frame(a + [b] + c)
            == [0xc0] + Escaped(a)
               + (if b == 0xc0 then [0xdb, 0xdc] else if b == 0xdb then [0xdb, 0xdd] else [b])
               + Escaped(c) + [0xc0]
  {
    hide Escaped;
    EscapedParts(a + [b], c);
    EscapedAppend(a, b);
    EscapedNone();
    assert [0xc0] + (Escaped(a) + Escape(b) + Escaped(c)) == [0xc0] + Escaped(a) + Escape(b) + Escaped(c);
  }

  /** What an escape sequence stands for; others are dropped. */
  function Unescape(b: byte): (r: seq<byte>)
    ensures |r| <= 1
  {
    if b == ESC_END then [END] else if b == ESC_ESC then [ESC] else []
  }

  /** What osc_slip_decode makes of the buffer from index i on. It may look at the byte
      behind the frame if that ends with ESC. */
  function Decoded(buf: seq<byte>, i: nat, maxlen: nat): (r: seq<byte>)
    requires maxlen < |buf|
    decreases maxlen - i
  {
    if i >= maxlen then []
    else if buf[i] == END then
      if i > 0 then [] else Decoded(buf, i + 1, maxlen)
    else if buf[i] == ESC then Unescape(buf[i + 1]) + Decoded(buf, i + 2, maxlen)
    else [buf[i]] + Decoded(buf, i + 1, maxlen)
  }

  lemma EscapedStep(s: seq<byte>, rest: seq<byte>)
    requires s != []
    ensures Escaped(s) + rest == Escape(s[0]) + (Escaped(s[1..]) + rest)
    ensures |Escaped(s)| == |Escape(s[0])| + |Escaped(s[1..])|
  {
    var e, t := Escape(s[0]), Escaped(s[1..]);
    assert Escaped(s) == e + t;
    hide *;
    Associate(e, t, rest);
  }

  lemma Associate(a: seq<byte>, b: seq<byte>, c: seq<byte>)
    ensures (a + b) + c == a + (b + c)
  {
  }

  lemma Behind(buf: seq<byte>, i: nat, e: seq<byte>, rest: seq<byte>)
    requires i <= |buf| && buf[i..] == e + rest
    ensures i + |e| <= |buf| && buf[i + |e|..] == rest
    ensures |e| > 0 ==> buf[i] == e[0]
    ensures |e| > 1 ==> buf[i + 1] == e[1]
  {
    assert |e| > 0 ==> buf[i..][0] == e[0];
    assert |e| > 1 ==> buf[i..][1] == e[1];
    assert (e + rest)[|e|..] == rest;
  }

  /** Bytes that were escaped come back, from any place of the buffer on, and decoding
      goes on behind them. */
  lemma {:induction false} DecodePrefix(buf: seq<byte>, i: nat, s: seq<byte>, rest: seq<byte>, maxlen: nat)
    requires i + |Escaped(s)| <= maxlen < |buf| && buf[i..] == Escaped(s) + rest
    ensures Decoded(buf, i, maxlen) == s + Decoded(buf, i + |Escaped(s)|, maxlen)
    decreases |s|
  {
    hide Escaped, Escape, Decoded;
    EscapedNone();
    if s == [] {
      assert s + Decoded(buf, i, maxlen) == Decoded(buf, i, maxlen);
    } else {
      EscapedStep(s, rest);
      Behind(buf, i, Escape(s[0]), Escaped(s[1..]) + rest);
      DecodePrefix(buf, i + |Escape(s[0])|, s[1..], rest, maxlen);
      OneByte(buf, i, s[0], maxlen);
      var more := Decoded(buf, i + |Escape(s[0])| + |Escaped(s[1..])|, maxlen);
      Associate([s[0]], s[1..], more);
      assert [s[0]] + s[1..] == s;
    }
  }

  lemma OneByte(buf: seq<byte>, i: nat, b: byte, maxlen: nat)
    requires i + |Escape(b)| <= maxlen < |buf| && buf[i] == Escape(b)[0] && (|Escape(b)| == 2 ==> buf[i + 1] == Escape(b)[1])
    ensures Decoded(buf, i, maxlen) == [b] + Decoded(buf, i + |Escape(b)|, maxlen)
  {
  }

  /** Up to END. */
  lemma DecodeFrom(buf: seq<byte>, i: nat, s: seq<byte>, rest: seq<byte>, maxlen: nat)
    requires i + |Escaped(s)| < maxlen < |buf| && i + |Escaped(s)| > 0
    requires buf[i..] == Escaped(s) + ([END] + rest)
    ensures Decoded(buf, i, maxlen) == s
  {
    DecodePrefix(buf, i, s, [END] + rest, maxlen);
    Behind(buf, i, Escaped(s), [END] + rest);
    Behind(buf, i + |Escaped(s)|, [END], rest);
    assert s + [] == s;
  }

  /** A byte behind ESC that is no escape code is dropped with it. */
  lemma Malformed(a: seq<byte>, x: byte, c: seq<byte>, rest: seq<byte>, maxlen: nat)
    requires x != 0xdc && x != 0xdd
    requires var n := 1 + |Escaped(a)| + 2 + |Escaped(c)|; n < maxlen < n + 1 + |rest|
    ensures Decoded([0xc0] + (Escaped(a) + ([0xdb, x] + (Escaped(c) + ([0xc0] + rest)))), 0, maxlen) == a + c
  {
    var tail := Escaped(c) + ([0xc0] + rest);
    var buf := [0xc0] + (Escaped(a) + ([0xdb, x] + tail));
    var k := 1 + |Escaped(a)|;
    Behind(buf, 0, [0xc0], Escaped(a) + ([0xdb, x] + tail));
    Behind(buf, 1, Escaped(a), [0xdb, x] + tail);
    Behind(buf, k, [0xdb, x], tail);
    DecodePrefix(buf, 1, a, [0xdb, x] + tail, maxlen);
    DecodeFrom(buf, k + 2, c, rest, maxlen);
    assert Unescape(x) + c == c;
  }

  /** Without END, everything up to the length given is decoded. */
  lemma Unfinished(a: seq<byte>, rest: seq<byte>)
    requires rest != []
    ensures Decoded([0xc0] + (Escaped(a) + rest), 0, 1 + |Escaped(a)|) == a
  {
    var buf := [0xc0] + (Escaped(a) + rest);
    Behind(buf, 0, [0xc0], Escaped(a) + rest);
    DecodePrefix(buf, 1, a, rest, 1 + |Escaped(a)|);
    assert a + [] == a;
  }

  /** Decoding a frame gives back the original bytes, whatever follows it. */
  lemma RoundTrip(s: seq<byte>, rest: seq<byte>, maxlen: nat)
    requires rest != [] && |Frame(s)| <= maxlen < |Frame(s)| + |rest|
    ensures Decoded(Frame(s) + rest, 0, maxlen) == s
  {
    var buf := Frame(s) + rest;
    assert buf[1..] == Escaped(s) + ([END] + rest);
    DecodeFrom(buf, 1, s, rest, maxlen);
  }

  /** So many END characters. */
  function Ends(k: nat): (r: seq<byte>)
    ensures |r| == k && forall i :: 0 <= i < k ==> r[i] == END
  {
    if k == 0 then [] else [END] + Ends(k - 1)
  }

  /** A comment of the source speaks of skipping initial END characters. For any number
      of them, any message and anything behind it: the message comes back exactly if
      there is one of them or the message is empty; from the second one on they end
      it. Without any, a message is accepted too, unless it is empty: then its END is
      taken for the initial one, and the bytes behind it are decoded. */
  lemma LeadingEnds(k: nat, s: seq<byte>, rest: seq<byte>, maxlen: nat)
    requires rest != [] && k + |Escaped(s)| < maxlen < k + |Escaped(s)| + 1 + |rest|
    ensures var r := Decoded(Ends(k) + Escaped(s) + [END] + rest, 0, maxlen);
            && (k >= 1 ==> (r == s <==> k == 1 || s == []))
            && (k >= 2 ==> r == [])
            && (k == 0 && s != [] ==> r == s)
            && (k == 0 && s == [] ==> r == Decoded([END] + rest, 1, maxlen))
  {
    var buf := Ends(k) + Escaped(s) + [END] + rest;
    if k >= 2 {
      assert buf[0] == END && buf[1] == END;
    } else if k == 1 {
      assert buf == Frame(s) + rest;
      RoundTrip(s, rest, maxlen);
    } else if s != [] {
      WithoutEnd(s, rest, maxlen);
      assert buf == Escaped(s) + ([END] + rest);
    } else {
      assert buf == [END] + rest;
    }
  }

  /** A message without a leading END. */
  lemma WithoutEnd(s: seq<byte>, rest: seq<byte>, maxlen: nat)
    requires s != [] && rest != [] && |Escaped(s)| < maxlen < |Escaped(s)| + 1 + |rest|
    ensures Decoded(Escaped(s) + ([END] + rest), 0, maxlen) == s
  {
    DecodeFrom(Escaped(s) + ([END] + rest), 0, s, rest, maxlen);
  }

  /** The frame that follows a lone END is decoded in place of an empty message. */
  lemma NextMessage(t: seq<byte>, rest: seq<byte>, maxlen: nat)
    requires rest != [] && 1 + |Escaped(t)| < maxlen < 1 + |Escaped(t)| + 1 + |rest|
    ensures Decoded([END] + (Escaped(t) + [END] + rest), 1, maxlen) == t
  {
    var buf := [END] + (Escaped(t) + [END] + rest);
    assert buf[1..] == Escaped(t) + ([END] + rest);
    DecodeFrom(buf, 1, t, rest, maxlen);
  }

  /** One byte of osc_slip_encode. */
  method PutByte(dest: array<byte>, j: nat, b: byte) returns (next: nat)
    requires j + 2 <= dest.Length
    modifies dest
    ensures next == j + |Escape(b)| && dest[..next] == old(dest[..j]) + Escape(b)
    ensures forall k :: next <= k < dest.Length ==> dest[k] == old(dest[k])
  {
    next := j;
    if b == END {
      dest[next] := ESC;
      next := next + 1;
      dest[next] := ESC_END;
    } else if b == ESC {
      dest[next] := ESC;
      next := next + 1;
      dest[next] := ESC_ESC;
    } else {
      dest[next] := b;
    }
    next := next + 1;
  }

  /** osc_slip_encode: the frame and a zero byte behind it. */
  method SlipEncode(src: array<byte>, dest: array<byte>, len: nat) returns (j: nat)
    requires len <= src.Length && src != dest && 2 * len + 3 <= dest.Length
    modifies dest
    ensures j == |Frame(src[..len])| < dest.Length
    ensures dest[..j] == Frame(src[..len]) && dest[j] == 0
    ensures dest[j + 1..] == old(dest[j + 1..])
  {
    hide Escaped, Escape;
    dest[0] := END;
    var i: nat := 0;
    j := 1;
    EscapedNone();
    while i < len
      invariant i <= len && j == 1 + |Escaped(src[..i])| <= 2 * i + 1
      invariant dest[..j] == [END] + Escaped(src[..i])
      invariant forall k :: j <= k < dest.Length ==> dest[k] == old(dest[k])
    {
      var b := src[i];
      assert src[..i + 1] == src[..i] + [b];
      EscapedAppend(src[..i], b);
      j := PutByte(dest, j, b);
      Associate([END], Escaped(src[..i]), Escape(b));
      i := i + 1;
    }
    ghost var d := dest[..j];
    dest[j] := END;
    assert dest[..j + 1] == d + [END];
    j := j + 1;
    dest[j] := 0;
  }

  lemma EscapedNone()
    ensures Escaped([]) == []
  {
  }

  /** osc_slip_decode: in place; the write index never passes the read index. */
  method SlipDecode(buf: array<byte>, maxlen: nat) returns (j: nat)
    requires maxlen < buf.Length
    modifies buf
    ensures j <= maxlen && buf[..j] == Decoded(old(buf[..]), 0, maxlen)
  {
    hide Decoded;
    ghost var s := buf[..];
    var i: nat := 0;
    j := 0;
    while i < maxlen
      invariant j <= i <= maxlen + 1 && j <= maxlen
      invariant forall k :: i <= k < buf.Length ==> buf[k] == s[k]
      invariant buf[..j] + Decoded(s, i, maxlen) == Decoded(s, 0, maxlen)
    {
      DecodedStep(s, i, maxlen);
      ghost var d := buf[..j];
      if buf[i] == END {
        if i > 0 {
          return;
        }
      } else if buf[i] == ESC {
        ghost var rest := Decoded(s, i + 2, maxlen);
        i := i + 1;
        if buf[i] == ESC_END {
          Joined(d, END, rest);
          buf[j] := END;
          j := j + 1;
          assert buf[..j] == d + [END];
        } else if buf[i] == ESC_ESC {
          Joined(d, ESC, rest);
          buf[j] := ESC;
          j := j + 1;
          assert buf[..j] == d + [ESC];
        }
      } else {
        Joined(d, s[i], Decoded(s, i + 1, maxlen));
        buf[j] := buf[i];
        j := j + 1;
        assert buf[..j] == d + [s[i]];
      }
      i := i + 1;
    }
    DecodedEnd(s, i, maxlen);
  }

  lemma Joined(d: seq<byte>, b: byte, rest: seq<byte>)
    ensures (d + [b]) + rest == d + ([b] + rest)
  {
  }

  lemma DecodedStep(buf: seq<byte>, i: nat, maxlen: nat)
    requires i < maxlen < |buf|
    ensures Decoded(buf, i, maxlen) ==
      if buf[i] == END then (if i > 0 then [] else Decoded(buf, i + 1, maxlen))
      else if buf[i] == ESC then
        if buf[i + 1] == ESC_END then [END] + Decoded(buf, i + 2, maxlen)
        else if buf[i + 1] == ESC_ESC then [ESC] + Decoded(buf, i + 2, maxlen)
        else Decoded(buf, i + 2, maxlen)
      else [buf[i]] + Decoded(buf, i + 1, maxlen)
  {
  }

  lemma DecodedEnd(buf: seq<byte>, i: nat, maxlen: nat)
    requires maxlen <= i && maxlen < |buf|
    ensures Decoded(buf, i, maxlen) == []
  {
  }

  /** Encoding and then decoding the frame over itself. */
  method EncodeDecode(src: array<byte>, buf: array<byte>, len: nat) returns (n: nat)
    requires len <= src.Length && src != buf && 2 * len + 3 <= buf.Length
    modifies buf
    ensures n == len && buf[..n] == src[..len]
  {
    hide Decoded, Frame;
    var j := SlipEncode(src, buf, len);
    RoundTrip(src[..len], buf[j..], j);
    assert buf[..] == buf[..j] + buf[j..];
    n := SlipDecode(buf, j);
  }
}
