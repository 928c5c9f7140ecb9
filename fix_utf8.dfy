/** The `fix_utf8` repair engine: one left-to-right pass over the input that copies
    every well-formed `UTF8-char` and replaces any other byte, one byte at a time,
    by its UTF-8B escape, re-examining the bytes after it from scratch. */
module FixUtf8 {
  import opened Utf8
  import opened Utf8b

  /** What the lead-byte switch decides at the cursor. */
  datatype Step = Copy(len: nat) | Bad

  /** The decision of the loop body at cursor `i`: the "last byte of input?" test and
      the lead-byte switch, including which lookahead bytes it reads and when. It copies
      exactly when the input at `i` starts with a `UTF8-char`, and copies that char. */
  function Classify(input: seq<bv8>, i: nat): (r: Step)
    requires i < |input|
    ensures r.Copy? <==> CharLen(input[i..]) > 0
    ensures r.Copy? ==> r.len == CharLen(input[i..]) && i + r.len <= |input|
    ensures r.Copy? ==> Utf8Char(input[i..i + r.len])
  {
    var lead := input[i];
    if i + 1 == |input| && lead > 0x7F then Bad
    else if lead <= 0x7F then Copy(1)
    else if 0xC2 <= lead <= 0xDF then
      (if !IsCont(input[i + 1]) then Bad else Window(input, i, 2); Copy(2))
    else if lead == 0xE0 && input[i + 1] <= 0x9F then Bad
    else if lead == 0xED && input[i + 1] > 0x9F then Bad
    else if 0xE0 <= lead <= 0xEF then
      (if i + 2 >= |input| || !IsCont(input[i + 1]) || !IsCont(input[i + 2]) then Bad
       else Window(input, i, 3); Copy(3))
    else if lead == 0xF0 && input[i + 1] <= 0x8F then Bad
    else if lead == 0xF4 && input[i + 1] > 0x8F then Bad
    else if 0xF0 <= lead <= 0xF4 then
      (if i + 3 >= |input| || !IsCont(input[i + 1]) || !IsCont(input[i + 2]) || !IsCont(input[i + 3]) then Bad
       else Window(input, i, 4); Copy(4))
    else Bad
  }

  /** The `n` bytes at the cursor, seen from the cursor. */
  lemma Window(input: seq<bv8>, i: nat, n: nat)
    requires i + n <= |input|
    ensures input[i..][..n] == input[i..i + n]
  {
  }

  /** What `fix_utf8` appends for `s`, stated against the grammar: a leading
      `UTF8-char` is copied, otherwise the first byte alone is escaped. */
  function Repair(s: seq<bv8>): seq<bv8>
    decreases |s|
  {
    if s == [] then []
    else if CharLen(s) > 0 then s[..CharLen(s)] + Repair(s[CharLen(s)..])
    else Escape(s[0]) + Repair(s[1..])
  }

  /** How many bytes `Repair` escapes. */
  function Escaped(s: seq<bv8>): nat
    decreases |s|
  {
    if s == [] then 0
    else if CharLen(s) > 0 then Escaped(s[CharLen(s)..])
    else 1 + Escaped(s[1..])
  }

  /** `fix_utf8(result, i, end)`: appends the repair of `input` to `result`. The
      lookahead reads are those of `Classify`, each guarded as in the source. */
  method FixUtf8(result: seq<bv8>, input: seq<bv8>) returns (fixed: seq<bv8>)
    ensures fixed == result + Repair(input)
  {
    fixed := result;
    var i := 0;
    while i < |input|
      invariant i <= |input|
      invariant fixed + Repair(input[i..]) == result + Repair(input)
    {
      RepairStep(input, i);
      match Classify(input, i)
      case Copy(n) =>
        fixed := fixed + input[i..i + n];
        i := i + n;
      case Bad =>
        var enc: seq<bv8> := [0xED, 0xAC + (input[i] >> 6), 0x80 | (input[i] & 0x3F)];
        assert enc == Escape(input[i]);
        fixed := fixed + enc;
        i := i + 1;
    }
  }

  /** One turn of the loop, as `Repair` sees it. */
  lemma RepairStep(input: seq<bv8>, i: nat)
    requires i < |input|
    ensures Classify(input, i).Copy? ==>
      Repair(input[i..]) == input[i..i + Classify(input, i).len] + Repair(input[i + Classify(input, i).len..])
    ensures Classify(input, i).Bad? ==>
      Repair(input[i..]) == Escape(input[i]) + Repair(input[i + 1..])
  {
    var rest := input[i..];
    match Classify(input, i)
    case Copy(n) =>
      assert input[i..i + n] == rest[..n] && input[i + n..] == rest[n..];
      RepairCopies(rest);
    case Bad =>
      assert input[i + 1..] == rest[1..];
      RepairEscapes(rest);
  }

  lemma RepairCopies(s: seq<bv8>)
    requires CharLen(s) > 0
    ensures Repair(s) == s[..CharLen(s)] + Repair(s[CharLen(s)..])
  {
  }

  lemma RepairEscapes(s: seq<bv8>)
    requires s != [] && CharLen(s) == 0
    ensures Repair(s) == Escape(s[0]) + Repair(s[1..])
  {
  }

  /** An ASCII byte is copied on its own and never escaped. */
  lemma AsciiPassthrough(s: seq<bv8>)
    requires |s| > 0 && s[0] <= 0x7F
    ensures Repair(s) == [s[0]] + Repair(s[1..])
  {
    assert s[..1] == [s[0]];
  }

  /** Lone continuation bytes, C0, C1, F5..FF, and a non-ASCII last byte are
      escaped on their own; the next byte is examined afresh. */
  lemma AlwaysRejected(s: seq<bv8>)
    requires |s| > 0
    requires 0x80 <= s[0] <= 0xC1 || s[0] >= 0xF5 || (|s| == 1 && s[0] >= 0x80)
    ensures Repair(s) == Escape(s[0]) + Repair(s[1..])
  {
    if CharLen(s) > 0 {
      CharShape(s[..CharLen(s)]);
    }
  }

  /** The output grows by two bytes per escaped byte; nothing is escaped exactly
      when the input is valid UTF-8. */
  lemma {:induction false} RepairLength(s: seq<bv8>)
    ensures |Repair(s)| == |s| + 2 * Escaped(s)
    ensures Escaped(s) <= |s|
    ensures Escaped(s) == 0 <==> ValidUtf8(s)
    decreases |s|
  {
    if s != [] {
      if CharLen(s) > 0 {
        RepairLength(s[CharLen(s)..]);
      } else {
        RepairLength(s[1..]);
      }
    }
  }

  /** Hence `|s| <= |Repair(s)| <= 3 |s|`, and valid UTF-8 is exactly the input
      `fix_utf8` leaves unchanged. */
  lemma {:induction false} RepairFixedPoint(s: seq<bv8>)
    ensures |s| <= |Repair(s)| <= 3 * |s|
    ensures Repair(s) == s <==> ValidUtf8(s)
    decreases |s|
  {
    RepairLength(s);
    if ValidUtf8(s) && s != [] {
      var n := CharLen(s);
      RepairFixedPoint(s[n..]);
      TakeDrop(s, n);
    }
  }

  /** Valid text in front is copied through, whatever follows it. */
  lemma {:induction false} RepairValidPrefix(a: seq<bv8>, b: seq<bv8>)
    requires ValidUtf8(a)
    ensures Repair(a + b) == a + Repair(b)
    decreases |a|
  {
    if a == [] {
      assert a + b == b;
    } else {
      var n := CharLen(a);
      var c := a[..n];
      var t := a[n..];
      assert ValidUtf8(t);
      assert a + b == c + (t + b);
      CharLenOfChar(c, t + b);
      RepairCopies(c + (t + b));
      RepairValidPrefix(t, b);
      AppendAssoc(c, t, Repair(b));
      assert a == c + t;
    }
  }

  /** If `b` does not start with a continuation byte, no `UTF8-char` can straddle
      the seam, so `a` and `b` are repaired independently: a bad byte only ever
      affects its own escape. */
  lemma {:induction false} RepairConcat(a: seq<bv8>, b: seq<bv8>)
    requires b == [] || !IsCont(b[0])
    ensures Repair(a + b) == Repair(a) + Repair(b)
    decreases |a|
  {
    if a == [] {
      assert a + b == b;
    } else {
      var s := a + b;
      CharLenAcrossSeam(a, b);
      if CharLen(a) > 0 {
        var n := CharLen(a);
        SplitInFirst(a, b, n);
        RepairConcat(a[n..], b);
      } else {
        SplitInFirst(a, b, 1);
        RepairConcat(a[1..], b);
      }
    }
  }

  /** Where no position starts a `UTF8-char`, every byte is escaped. */
  lemma {:induction false} RepairNoChar(s: seq<bv8>)
    requires NoCharAt(s)
    ensures Repair(s) == EscapeAll(s)
    decreases |s|
  {
    if s != [] {
      assert CharLen(s[0..]) == 0 && s[0..] == s;
      var t := s[1..];
      assert NoCharAt(t) by {
        forall k | 0 <= k < |t| ensures CharLen(t[k..]) == 0 {
          assert t[k..] == s[1 + k..];
        }
      }
      RepairNoChar(t);
      RepairEscapes(s);
    }
  }

  /** A cooperating decoder gets the input back: copied text and escapes never
      look alike, so the repair loses nothing. */
  lemma {:induction false} DecodeRepair(s: seq<bv8>)
    ensures Decode(Repair(s)) == s
    decreases |s|
  {
    if s != [] {
      if CharLen(s) > 0 {
        DecodeRepair(s[CharLen(s)..]);
        DecodeRepairCopy(s);
      } else {
        DecodeRepair(s[1..]);
        DecodeRepairEscape(s);
      }
    }
  }

  lemma DecodeRepairCopy(s: seq<bv8>)
    requires CharLen(s) > 0
    requires Decode(Repair(s[CharLen(s)..])) == s[CharLen(s)..]
    ensures Decode(Repair(s)) == s
  {
    var n := CharLen(s);
    RepairCopies(s);
    DecodeChar(s[..n], Repair(s[n..]));
    TakeDrop(s, n);
  }

  lemma DecodeRepairEscape(s: seq<bv8>)
    requires s != [] && CharLen(s) == 0
    requires Decode(Repair(s[1..])) == s[1..]
    ensures Decode(Repair(s)) == s
  {
    RepairEscapes(s);
    DecodeEscape(s[0], Repair(s[1..]));
    assert s == [s[0]] + s[1..];
  }

  /** F4 90 80 80 lies above U+10FFFF: four escapes, twelve bytes. */
  lemma RepairAboveMax()
    ensures Repair([0xF4, 0x90, 0x80, 0x80]) == EscapeAll([0xF4, 0x90, 0x80, 0x80])
  {
    var s: seq<bv8> := [0xF4, 0x90, 0x80, 0x80];
    AlwaysRejected(s[3..]);
    AlwaysRejected(s[2..]);
    AlwaysRejected(s[1..]);
    assert CharLen(s) == 0;
  }

  /** F4 8F BF BF is U+10FFFF, the largest code point: copied. */
  lemma RepairMax()
    ensures Repair([0xF4, 0x8F, 0xBF, 0xBF]) == [0xF4, 0x8F, 0xBF, 0xBF]
  {
    var s: seq<bv8> := [0xF4, 0x8F, 0xBF, 0xBF];
    assert s[..4] == s;
    assert CharLen(s) == 4;
  }

  /** C0 80 (an overlong NUL) and ED A0 80 (the surrogate U+D800) are escaped byte by byte. */
  lemma RepairOverlongAndSurrogate()
    ensures Repair([0xC0, 0x80]) == EscapeAll([0xC0, 0x80])
    ensures Repair([0xED, 0xA0, 0x80]) == EscapeAll([0xED, 0xA0, 0x80])
  {
    var o: seq<bv8> := [0xC0, 0x80];
    AlwaysRejected(o[1..]);
    AlwaysRejected(o);
    var u: seq<bv8> := [0xED, 0xA0, 0x80];
    AlwaysRejected(u[2..]);
    AlwaysRejected(u[1..]);
    assert CharLen(u) == 0;
  }

  /** E2 61: the truncated lead E2 is escaped and the `a` after it is kept. */
  lemma RepairTruncatedLead()
    ensures Repair([0xE2, 0x61]) == Escape(0xE2) + [0x61]
  {
    var s: seq<bv8> := [0xE2, 0x61];
    assert CharLen(s) == 0;
    AsciiPassthrough(s[1..]);
  }
}
