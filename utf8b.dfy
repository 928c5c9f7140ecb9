/** The UTF-8B escape both repair routines emit for a byte they reject, and a
    reference decoder that reads repaired text back into the original bytes.

    The triple `ED, AC + (b >> 6), 80 | (b & 3F)` is the three-byte form of the
    surrogate code point U+DB00 + b (U+DB80..U+DBFF for b >= 0x80). Its second
    byte is always AC..AF, which no copied `UTF8-char` can have after `ED`
    (those need 80..9F), so escapes and copied text never look alike. */
module Utf8b {
  import opened Utf8

  function Utf8b1(c: bv8): bv8 { 0xED }
  function Utf8b2(c: bv8): bv8 { 0xAC + (c >> 6) }
  function Utf8b3(c: bv8): bv8 { 0x80 | (c & 0x3F) }

  /** A three-byte escape as the decoder recognises it. */
  predicate IsEscape(t: seq<bv8>) {
    |t| == 3 && t[0] == 0xED && 0xAC <= t[1] <= 0xAF && IsCont(t[2])
  }

  /** The byte an escape stands for: `((t[1] - AC) << 6) | (t[2] & 3F)`. */
  function Unescape(t: seq<bv8>): bv8
    requires IsEscape(t)
  {
    ((t[1] - 0xAC) << 6) | (t[2] & 0x3F)
  }

  /** The escape of one byte: it is recognised as an escape, decodes back to
      the byte, and is never itself a `UTF8-char`. */
  function Escape(b: bv8): (t: seq<bv8>)
    ensures IsEscape(t) && Unescape(t) == b
    ensures !Utf8Char(t)
    ensures b >= 0x80 ==> 0xAE <= t[1] <= 0xAF
  {
    [Utf8b1(b), Utf8b2(b), Utf8b3(b)]
  }

  /** Every byte of `s` escaped, in order. */
  function EscapeAll(s: seq<bv8>): (r: seq<bv8>)
    ensures |r| == 3 * |s|
  {
    if s == [] then [] else Escape(s[0]) + EscapeAll(s[1..])
  }

  /** Escaping a concatenation escapes the parts. */
  lemma {:induction false} EscapeAllConcat(a: seq<bv8>, b: seq<bv8>)
    ensures EscapeAll(a + b) == EscapeAll(a) + EscapeAll(b)
  {
    if a == [] {
      assert a + b == b;
    } else {
      assert (a + b)[1..] == a[1..] + b;
      EscapeAllConcat(a[1..], b);
    }
  }

  /** Escaping one more byte appends its escape. */
  lemma EscapeAllSnoc(p: seq<bv8>, b: bv8)
    ensures EscapeAll(p + [b]) == EscapeAll(p) + Escape(b)
  {
    EscapeAllConcat(p, [b]);
    assert EscapeAll([b]) == Escape(b) + EscapeAll([]);
  }

  /** A decoder that understands the convention: an escape gives back its
      byte, a `UTF8-char` is copied, anything else is copied a byte at a time. */
  function Decode(out: seq<bv8>): (s: seq<bv8>)
    decreases |out|
  {
    if out == [] then []
    else if |out| >= 3 && IsEscape(out[..3]) then [Unescape(out[..3])] + Decode(out[3..])
    else if CharLen(out) > 0 then out[..CharLen(out)] + Decode(out[CharLen(out)..])
    else [out[0]] + Decode(out[1..])
  }

  /** An escape in front decodes to its byte, whatever follows. */
  lemma {:induction false} DecodeEscape(b: bv8, x: seq<bv8>)
    ensures Decode(Escape(b) + x) == [b] + Decode(x)
  {
    var t := Escape(b) + x;
    assert t[..3] == Escape(b);
    assert t[3..] == x;
  }

  /** A `UTF8-char` in front is copied, whatever follows. */
  lemma {:induction false} DecodeChar(c: seq<bv8>, x: seq<bv8>)
    requires Utf8Char(c)
    ensures Decode(c + x) == c + Decode(x)
  {
    var t := c + x;
    CharShape(c);
    CharLenOfChar(c, x);
    assert t[..|c|] == c;
    if |t| >= 3 {
      assert !IsEscape(t[..3]) by {
        if |c| >= 3 {
          assert t[..3] == c[..3];
        }
      }
    }
  }

  /** A run of escapes in front decodes to the bytes it stands for. */
  lemma {:induction false} DecodeEscapeAll(p: seq<bv8>, x: seq<bv8>)
    ensures Decode(EscapeAll(p) + x) == p + Decode(x)
  {
    if p != [] {
      calc {
        Decode(EscapeAll(p) + x);
        { AppendAssoc(Escape(p[0]), EscapeAll(p[1..]), x); }
        Decode(Escape(p[0]) + (EscapeAll(p[1..]) + x));
        { DecodeEscape(p[0], EscapeAll(p[1..]) + x); }
        [p[0]] + Decode(EscapeAll(p[1..]) + x);
        { DecodeEscapeAll(p[1..], x); }
        [p[0]] + (p[1..] + Decode(x));
        { AppendAssoc([p[0]], p[1..], Decode(x)); assert [p[0]] + p[1..] == p; }
        p + Decode(x);
      }
    } else {
      assert EscapeAll(p) + x == x;
    }
  }
}
