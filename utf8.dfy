/** The UTF-8 grammar of section 4 of RFC 3629, over bytes.

    `Utf8Char` is the `UTF8-char` production written out range by range; `CharLen`
    finds the one `UTF8-char` a byte string starts with (if any) and `ValidUtf8` is
    `UTF8-octets = *( UTF8-char )`. Both repair routines are judged against these. */
module Utf8 {

  /** `UTF8-tail = %x80-BF` */
  predicate Tail(b: bv8) { 0x80 <= b <= 0xBF }

  /** The source's continuation-byte test, `(c & 0xc0) == 0x80`; it is exactly `UTF8-tail`. */
  function IsCont(c: bv8): (r: bool)
    ensures r <==> Tail(c)
  {
    c & 0xC0 == 0x80
  }

  /** `c` is exactly one `UTF8-char`. */
  predicate Utf8Char(c: seq<bv8>) {
    || (|c| == 1 && c[0] <= 0x7F)
    || (|c| == 2 && 0xC2 <= c[0] <= 0xDF && Tail(c[1]))
    || (|c| == 3 && (
         || (c[0] == 0xE0 && 0xA0 <= c[1] <= 0xBF && Tail(c[2]))
         || ((0xE1 <= c[0] <= 0xEC || 0xEE <= c[0] <= 0xEF) && Tail(c[1]) && Tail(c[2]))
         || (c[0] == 0xED && 0x80 <= c[1] <= 0x9F && Tail(c[2]))))
    || (|c| == 4 && (
         || (c[0] == 0xF0 && 0x90 <= c[1] <= 0xBF && Tail(c[2]) && Tail(c[3]))
         || (0xF1 <= c[0] <= 0xF3 && Tail(c[1]) && Tail(c[2]) && Tail(c[3]))
         || (c[0] == 0xF4 && 0x80 <= c[1] <= 0x8F && Tail(c[2]) && Tail(c[3]))))
  }

  /** The length a `UTF8-char` starting with `lead` must have (0: no `UTF8-char` starts so). */
  function LeadLength(lead: bv8): nat {
    if lead <= 0x7F then 1
    else if 0xC2 <= lead <= 0xDF then 2
    else if 0xE0 <= lead <= 0xEF then 3
    else if 0xF0 <= lead <= 0xF4 then 4
    else 0
  }

  /** The lead byte fixes the length, and every byte after the lead is a `UTF8-tail`. */
  lemma CharShape(c: seq<bv8>)
    requires Utf8Char(c)
    ensures |c| == LeadLength(c[0])
    ensures forall k :: 1 <= k < |c| ==> Tail(c[k])
    ensures c[0] == 0xED ==> c[1] <= 0x9F
  {
  }

  /** The length of the `UTF8-char` that `s` starts with, or 0 when `s` starts with none.
      The grammar is prefix-free, so there is at most one (`CharLenComplete`). */
  function CharLen(s: seq<bv8>): (n: nat)
    ensures n <= 4 && n <= |s|
    ensures n > 0 ==> Utf8Char(s[..n])
  {
    if s == [] then 0
    else
      var n := LeadLength(s[0]);
      if 0 < n <= |s| && Utf8Char(s[..n]) then n else 0
  }

  /** Whatever `UTF8-char` `s` starts with is the one `CharLen` finds: a positive
      result is not only sound but complete, and no other prefix is a `UTF8-char`. */
  lemma CharLenComplete(s: seq<bv8>, k: nat)
    requires 0 < k <= |s| && Utf8Char(s[..k])
    ensures CharLen(s) == k
  {
    CharShape(s[..k]);
  }

  /** `UTF8-octets = *( UTF8-char )`. */
  predicate ValidUtf8(s: seq<bv8>)
    decreases |s|
  {
    s == [] || (CharLen(s) > 0 && ValidUtf8(s[CharLen(s)..]))
  }

  /** A `UTF8-char` at the front is recognised whatever follows it. */
  lemma {:induction false} CharLenOfChar(c: seq<bv8>, x: seq<bv8>)
    requires Utf8Char(c)
    ensures CharLen(c + x) == |c|
    ensures (c + x)[|c|..] == x
  {
    CharShape(c);
    assert (c + x)[..|c|] == c;
  }

  /** Putting one more `UTF8-char` in front keeps a string valid, and only then. */
  lemma {:induction false} ValidCons(c: seq<bv8>, x: seq<bv8>)
    requires Utf8Char(c)
    ensures ValidUtf8(c + x) <==> ValidUtf8(x)
  {
    CharLenOfChar(c, x);
  }

  /** Valid UTF-8 is closed under concatenation. */
  lemma {:induction false} ValidConcat(a: seq<bv8>, b: seq<bv8>)
    requires ValidUtf8(a) && ValidUtf8(b)
    ensures ValidUtf8(a + b)
  {
    if a != [] {
      var n := CharLen(a);
      var c := a[..n];
      assert a == c + a[n..];
      ValidConcat(a[n..], b);
      AppendAssoc(c, a[n..], b);
      ValidCons(c, a[n..] + b);
    } else {
      assert a + b == b;
    }
  }

  /** Concatenation regrouped; stated once so that proofs need not rediscover it. */
  lemma AppendAssoc(a: seq<bv8>, b: seq<bv8>, c: seq<bv8>)
    ensures (a + b) + c == a + (b + c)
  {
  }

  /** A string split at `n` and put back together. */
  lemma TakeDrop(s: seq<bv8>, n: nat)
    requires n <= |s|
    ensures s[..n] + s[n..] == s
  {
  }

  /** Splitting `a + b` inside `a`. */
  lemma SplitInFirst(a: seq<bv8>, b: seq<bv8>, n: nat)
    requires n <= |a|
    ensures (a + b)[..n] == a[..n] && (a + b)[n..] == a[n..] + b
  {
  }

  /** Seven-bit ASCII is valid UTF-8. */
  lemma {:induction false} AsciiValid(s: seq<bv8>)
    requires forall k :: 0 <= k < |s| ==> s[k] <= 0x7F
    ensures ValidUtf8(s)
  {
    if s != [] {
      assert CharLen(s) == 1;
      AsciiValid(s[1..]);
    }
  }

  /** No position of `s` starts a `UTF8-char`: a routine that keeps only whole
      `UTF8-char`s keeps none of `s`. */
  predicate NoCharAt(s: seq<bv8>) {
    forall k :: 0 <= k < |s| ==> CharLen(s[k..]) == 0
  }

  /** A continuation byte starts no `UTF8-char`. */
  lemma ContStartsNoChar(s: seq<bv8>)
    requires s != [] && IsCont(s[0])
    ensures CharLen(s) == 0
  {
  }

  /** A front that starts no `UTF8-char`, followed only by continuation bytes,
      has no `UTF8-char` anywhere. */
  lemma LeadThenTails(s: seq<bv8>)
    requires s != [] && CharLen(s) == 0
    requires forall k :: 1 <= k < |s| ==> Tail(s[k])
    ensures NoCharAt(s)
  {
    forall k | 1 <= k < |s| ensures CharLen(s[k..]) == 0 {
      ContStartsNoChar(s[k..]);
    }
  }

  /** An ASCII byte is a `UTF8-char` by itself, so such a string has none. */
  lemma NoCharHigh(s: seq<bv8>)
    requires NoCharAt(s)
    ensures forall k :: 0 <= k < |s| ==> s[k] >= 0x80
  {
    forall k | 0 <= k < |s| ensures s[k] >= 0x80 {
      assert CharLen(s[k..]) == 0;
    }
  }

  /** If `b` does not start with a continuation byte, no `UTF8-char` can straddle
      the seam between `a` and `b`. */
  lemma CharLenAcrossSeam(a: seq<bv8>, b: seq<bv8>)
    requires a != []
    requires b == [] || !IsCont(b[0])
    ensures CharLen(a + b) == CharLen(a)
  {
    var s := a + b;
    var m := CharLen(s);
    if m > 0 {
      CharShape(s[..m]);
      assert m <= |a|;
      assert s[..m] == a[..m];
    }
    var n := CharLen(a);
    if n > 0 {
      assert s[..n] == a[..n];
    }
  }

  /** Strings without a `UTF8-char` stay so when joined, unless the second starts
      with a continuation byte that could complete a lead at the end of the first. */
  lemma NoCharConcat(a: seq<bv8>, b: seq<bv8>)
    requires NoCharAt(a) && NoCharAt(b)
    requires b == [] || !IsCont(b[0])
    ensures NoCharAt(a + b)
  {
    var s := a + b;
    forall k | 0 <= k < |s| ensures CharLen(s[k..]) == 0 {
      if k < |a| {
        assert s[k..] == a[k..] + b;
        CharLenAcrossSeam(a[k..], b);
      } else {
        assert s[k..] == b[k - |a|..];
      }
    }
  }

  /** A string whose lead byte announces either no `UTF8-char` or one exactly as
      long as the string, which is not one, and whose other bytes are
      continuation bytes, has no `UTF8-char` anywhere. */
  lemma WholeNoChar(s: seq<bv8>)
    requires s != [] && (LeadLength(s[0]) == 0 || LeadLength(s[0]) == |s|)
    requires !Utf8Char(s)
    requires forall k :: 1 <= k < |s| ==> Tail(s[k])
    ensures NoCharAt(s)
  {
    assert s[..|s|] == s;
    LeadThenTails(s);
  }
}
