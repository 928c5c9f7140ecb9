/** `to_json_string`: the second repair routine, the one the unit tests drive.

    It reads the sequence length off the lead byte (`utf8len`), checks that the
    continuation bytes are there (`validate_seq`) and then rejects overlong forms,
    surrogates and code points above U+10FFFF with the `L*OVERLONG`, `L3SURROGATE`
    and `L4OVERMAX` tests. Unlike `fix_utf8` it escapes every byte of a rejected
    sequence, and a lead byte too close to the end escapes all the bytes left. */
module Json {
  import opened Utf8
  import opened Utf8b

  /** `utf8len`: the sequence length announced by a lead byte, or -1. */
  function Utf8Len(first: bv8): (n: int)
    ensures n == -1 || 1 <= n <= 4
    ensures n == 1 <==> first <= 0x7F
    ensures n == 2 <==> 0xC0 <= first <= 0xDF
    ensures n == 3 <==> 0xE0 <= first <= 0xEF
    ensures n == 4 <==> 0xF0 <= first <= 0xF7
    ensures n == -1 <==> (0x80 <= first <= 0xBF || 0xF8 <= first)
  {
    if first & 0x80 == 0 then 1
    else if first >> 3 == 0x1E then 4
    else if first >> 4 == 0x0E then 3
    else if first >> 5 == 0x06 then 2
    else -1
  }

  /** `L2OVERLONG`: a two-byte lead C0 or C1 can only encode U+0000..U+007F. */
  function L2Overlong(c1: bv8): (r: bool)
    ensures 0xC0 <= c1 <= 0xDF ==> (r <==> c1 <= 0xC1)
  {
    c1 & 0x1E == 0
  }

  /** `L3OVERLONG`: E0 followed by 80..9F encodes a code point below U+0800. */
  function L3Overlong(c1: bv8, c2: bv8): (r: bool)
    ensures 0xE0 <= c1 <= 0xEF && IsCont(c2) ==> (r <==> c1 == 0xE0 && c2 <= 0x9F)
  {
    c1 & 0x0F == 0 && c2 & 0x20 == 0
  }

  /** `L3SURROGATE`: ED followed by A0..BF encodes U+D800..U+DFFF. */
  predicate L3Surrogate(c1: bv8, c2: bv8) {
    c1 == 0xED && 0xA0 <= c2 <= 0xBF
  }

  /** `L4OVERLONG`: F0 followed by 80..8F encodes a code point below U+10000. */
  function L4Overlong(c1: bv8, c2: bv8): (r: bool)
    ensures 0xF0 <= c1 <= 0xF7 && IsCont(c2) ==> (r <==> c1 == 0xF0 && c2 <= 0x8F)
  {
    c1 & 0x07 == 0 && c2 & 0x30 == 0
  }

  /** `L4OVERMAX`: F4 followed by 90..BF, or any of F5..F7, is above U+10FFFF. */
  function L4Overmax(c1: bv8, c2: bv8): (r: bool)
    ensures 0xF0 <= c1 <= 0xF7 && IsCont(c2) ==> (r <==> c1 >= 0xF5 || (c1 == 0xF4 && c2 >= 0x90))
  {
    c1 & 0x04 != 0 && (c1 & 0x03 != 0 || c2 & 0x30 != 0)
  }

  /** The post-check of a structurally complete sequence `c` of length 2..4. */
  predicate Rejected(c: seq<bv8>)
    requires 2 <= |c| <= 4
  {
    if |c| == 2 then L2Overlong(c[0])
    else if |c| == 3 then L3Overlong(c[0], c[1]) || L3Surrogate(c[0], c[1])
    else L4Overlong(c[0], c[1]) || L4Overmax(c[0], c[1])
  }

  /** The post-check's output for a complete sequence: escaped byte by byte when
      rejected, copied otherwise. */
  function PostCheck(c: seq<bv8>): seq<bv8>
    requires 2 <= |c| <= 4
  {
    if Rejected(c) then EscapeAll(c) else c
  }

  /** A lead byte followed by the continuation bytes it announces. */
  predicate Complete(c: seq<bv8>) {
    2 <= |c| <= 4 && Utf8Len(c[0]) == |c| && forall k :: 1 <= k < |c| ==> IsCont(c[k])
  }

  /** The lead and overlong/surrogate/over-max tests together accept exactly the
      `UTF8-char`s of RFC 3629 among complete sequences. */
  lemma CheckIsGrammar(c: seq<bv8>)
    requires Complete(c)
    ensures !Rejected(c) <==> Utf8Char(c)
  {
    assert IsCont(c[1]);
    if |c| >= 3 { assert IsCont(c[2]); }
    if |c| == 4 { assert IsCont(c[3]); }
  }

  /** The offset of the first byte at or after `j` (and before `len`) that is not a
      continuation byte, or `len` when there is none. */
  function FirstNonCont(s: seq<bv8>, len: nat, j: nat): (r: nat)
    requires 1 <= j <= len <= |s|
    ensures j <= r <= len
    ensures r < len ==> !IsCont(s[r])
    ensures forall k :: j <= k < r ==> IsCont(s[k])
    decreases len - j
  {
    if j == len || !IsCont(s[j]) then j else FirstNonCont(s, len, j + 1)
  }

  /** What one turn of the `to_json_string` loop does with the bytes at the cursor:
      keep the first `len` of them or escape the first `len` of them. */
  datatype Run = Keep(len: nat) | Reject(len: nat)

  /** The decision of one turn of the loop: the tail rule, `utf8len`, `validate_seq`
      and the post-check. It keeps exactly a leading `UTF8-char`; away from the end
      of the input it escapes a lead byte together with the continuation bytes
      after it, and nothing else. */
  function Front(s: seq<bv8>): (r: Run)
    requires s != []
    ensures 1 <= r.len <= |s|
    ensures r.Keep? <==> CharLen(s) > 0
    ensures r.Keep? ==> r.len == CharLen(s)
    ensures r.Reject? && Utf8Len(s[0]) <= |s| ==> forall k :: 1 <= k < r.len ==> IsCont(s[k])
  {
    var len := Utf8Len(s[0]);
    if len > 0 && |s| < len then Reject(|s|)
    else if len == 1 then Keep(1)
    else if len == -1 then Reject(1)
    else
      var j := FirstNonCont(s, len, 1);
      if j < len then NotChar(s, len, j); Reject(j)
      else
        GrammarAt(s, len);
        if Rejected(s[..len]) then Reject(len) else Keep(len)
  }

  /** A continuation byte missing at `j` leaves no `UTF8-char` at the front. */
  lemma NotChar(s: seq<bv8>, len: nat, j: nat)
    requires 2 <= len <= |s| && Utf8Len(s[0]) == len
    requires 1 <= j < len && !IsCont(s[j])
    ensures CharLen(s) == 0
  {
    var n := CharLen(s);
    if n > 0 {
      CharShape(s[..n]);
    }
  }

  /** The post-check on a complete sequence at the front of `s` is the grammar. */
  lemma GrammarAt(s: seq<bv8>, len: nat)
    requires 2 <= len <= |s| && Utf8Len(s[0]) == len
    requires forall k :: 1 <= k < len ==> IsCont(s[k])
    ensures !Rejected(s[..len]) <==> CharLen(s) > 0
    ensures !Rejected(s[..len]) ==> CharLen(s) == len
  {
    var c := s[..len];
    assert forall k :: 1 <= k < len ==> c[k] == s[k];
    CheckIsGrammar(c);
    var n := CharLen(s);
    if n > 0 {
      CharShape(s[..n]);
    }
  }

  /** What `to_json_string` produces for `s`. */
  function ToJson(s: seq<bv8>): seq<bv8>
    decreases |s|
  {
    if s == [] then []
    else
      match Front(s)
      case Keep(n) => s[..n] + ToJson(s[n..])
      case Reject(n) => EscapeAll(s[..n]) + ToJson(s[n..])
  }

  /** `escape_character`: appends the escape of `ch` to `str`. */
  method EscapeCharacter(str: seq<bv8>, ch: bv8) returns (str': seq<bv8>)
    ensures str' == str + Escape(ch)
  {
    str' := str + [Utf8b1(ch)];
    str' := str' + [Utf8b2(ch)];
    str' := str' + [Utf8b3(ch)];
  }

  /** `validate_seq(ns, s, i, len)`: looks for a non-continuation byte among the
      `len - 1` bytes after the lead at `i`. On finding the first one, at `i'`, it
      escapes the bytes before it, moves the cursor there and fails; otherwise it
      succeeds and changes nothing. */
  method ValidateSeq(ns: seq<bv8>, s: seq<bv8>, i: nat, len: nat) returns (ok: bool, ns': seq<bv8>, i': nat)
    requires i + len <= |s|
    ensures ok <==> forall k :: i + 1 <= k < i + len ==> IsCont(s[k])
    ensures ok ==> ns' == ns && i' == i
    ensures !ok ==> i < i' < i + len && !IsCont(s[i']) && (forall k :: i < k < i' ==> IsCont(s[k]))
    ensures !ok ==> ns' == ns + EscapeAll(s[i..i'])
  {
    ns', i' := ns, i;
    var j := 1;
    while j < len
      invariant 1 <= j
      invariant forall k :: i + 1 <= k < i + j && k < i + len ==> IsCont(s[k])
    {
      if !IsCont(s[i + j]) {
        ns' := EscapeRange(ns, s, i, i + j);
        i' := i + j;
        ok := false;
        return;
      }
      j := j + 1;
    }
    ok := true;
  }

  /** `to_json_string(s)`. */
  method ToJsonString(s: seq<bv8>) returns (ns: seq<bv8>)
    ensures ns == ToJson(s)
  {
    ns := [];
    var i: nat := 0;
    while i < |s|
      invariant i <= |s|
      invariant ns + ToJson(s[i..]) == ToJson(s)
    {
      var ch := s[i];
      var charlen := Utf8Len(ch);
      if charlen > 0 && |s| < i + charlen {
        TailStep(s, i);
        ghost var ns0, i0 := ns, i;
        ns := EscapeRange(ns, s, i, |s|);
        i := |s|;
        assert s[i0..|s|] == s[i0..] && s[i..] == [];
        assert ns + ToJson(s[i..]) == ns0 + ToJson(s[i0..]);
        continue;
      }
      ghost var ns0, i0 := ns, i;
      match charlen
      case 1 =>
        ns := ns + [ch];
        i := i + 1;
        OneStep(s, i0);
        AppendAssoc(ns0, [ch], ToJson(s[i..]));
      case 2 =>
        ns, i := Sequence(ns, s, i, 2);
      case 3 =>
        ns, i := Sequence(ns, s, i, 3);
      case 4 =>
        ns, i := Sequence(ns, s, i, 4);
      case _ =>
        ns := EscapeCharacter(ns, ch);
        i := i + 1;
        OneStep(s, i0);
        AppendAssoc(ns0, Escape(ch), ToJson(s[i..]));
    }
  }

  /** The loop that escapes the bytes `from .. to - 1` one `escape_character` at
      a time: the tail rule's loop and the one inside `validate_seq`. */
  method EscapeRange(ns: seq<bv8>, s: seq<bv8>, from: nat, to: nat) returns (ns': seq<bv8>)
    requires from <= to <= |s|
    ensures ns' == ns + EscapeAll(s[from..to])
  {
    ns' := ns;
    var j := from;
    while j < to
      invariant from <= j <= to
      invariant ns' == ns + EscapeAll(s[from..j])
    {
      EscapeAllSnoc(s[from..j], s[j]);
      assert s[from..j + 1] == s[from..j] + [s[j]];
      AppendAssoc(ns, EscapeAll(s[from..j]), Escape(s[j]));
      ns' := EscapeCharacter(ns', s[j]);
      j := j + 1;
    }
  }

  /** Cases 2, 3 and 4 of the lead-byte switch: `validate_seq`, then the post-check
      of the complete sequence. The scan moves forward and the output keeps pace
      with `ToJson`. */
  method Sequence(ns: seq<bv8>, s: seq<bv8>, i: nat, len: nat) returns (ns': seq<bv8>, i': nat)
    requires i + len <= |s| && 2 <= len && Utf8Len(s[i]) == len
    ensures i < i' <= |s|
    ensures ns' + ToJson(s[i'..]) == ns + ToJson(s[i..])
  {
    var ok;
    ok, ns', i' := ValidateSeq(ns, s, i, len);
    if ok {
      SeqStep(s, i, len);
      ns' := CheckSeq(ns, s, i, len);
      i' := i + len;
      AppendAssoc(ns, PostCheck(s[i..i + len]), ToJson(s[i'..]));
    } else {
      BrokenStep(s, i, len, i');
      AppendAssoc(ns, EscapeAll(s[i..i']), ToJson(s[i'..]));
    }
  }

  /** The post-check of a complete sequence at `i` (the "check overlong" blocks of
      cases 2, 3 and 4 of the switch). */
  method CheckSeq(ns: seq<bv8>, s: seq<bv8>, i: nat, len: nat) returns (ns': seq<bv8>)
    requires i + len <= |s| && 2 <= len <= 4
    ensures ns' == ns + PostCheck(s[i..i + len])
  {
    if len == 2 {
      ns' := Check2(ns, s, i);
    } else if len == 3 {
      ns' := Check3(ns, s, i);
    } else {
      ns' := Check4(ns, s, i);
    }
  }

  /** Case 2: `L2OVERLONG`. */
  method Check2(ns: seq<bv8>, s: seq<bv8>, i: nat) returns (ns': seq<bv8>)
    requires i + 2 <= |s|
    ensures ns' == ns + PostCheck(s[i..i + 2])
  {
    ns' := ns;
    if L2Overlong(s[i]) {
      ns' := EscapeCharacter(ns', s[i]);
      ns' := EscapeCharacter(ns', s[i + 1]);
      EscapeAll2(s, i);
    } else {
      ns' := ns' + [s[i]];
      ns' := ns' + [s[i + 1]];
      assert s[i..i + 2] == [s[i], s[i + 1]];
    }
  }

  /** Case 3: `L3OVERLONG` or `L3SURROGATE`. */
  method Check3(ns: seq<bv8>, s: seq<bv8>, i: nat) returns (ns': seq<bv8>)
    requires i + 3 <= |s|
    ensures ns' == ns + PostCheck(s[i..i + 3])
  {
    ns' := ns;
    if L3Overlong(s[i], s[i + 1]) || L3Surrogate(s[i], s[i + 1]) {
      ns' := EscapeCharacter(ns', s[i]);
      ns' := EscapeCharacter(ns', s[i + 1]);
      ns' := EscapeCharacter(ns', s[i + 2]);
      Escaped3(ns, s, i);
    } else {
      ns' := ns' + [s[i]];
      ns' := ns' + [s[i + 1]];
      ns' := ns' + [s[i + 2]];
      Copied3(ns, s, i);
    }
  }

  /** Case 4: `L4OVERLONG` or `L4OVERMAX`. */
  method Check4(ns: seq<bv8>, s: seq<bv8>, i: nat) returns (ns': seq<bv8>)
    requires i + 4 <= |s|
    ensures ns' == ns + PostCheck(s[i..i + 4])
  {
    ns' := ns;
    if L4Overlong(s[i], s[i + 1]) || L4Overmax(s[i], s[i + 1]) {
      ns' := EscapeCharacter(ns', s[i]);
      ns' := EscapeCharacter(ns', s[i + 1]);
      ns' := EscapeCharacter(ns', s[i + 2]);
      ns' := EscapeCharacter(ns', s[i + 3]);
      Escaped4(ns, s, i);
    } else {
      ns' := ns' + [s[i]];
      ns' := ns' + [s[i + 1]];
      ns' := ns' + [s[i + 2]];
      ns' := ns' + [s[i + 3]];
      Copied4(ns, s, i);
    }
  }

  lemma Escaped3(ns: seq<bv8>, s: seq<bv8>, i: nat)
    requires i + 3 <= |s|
    ensures ns + Escape(s[i]) + Escape(s[i + 1]) + Escape(s[i + 2]) == ns + EscapeAll(s[i..i + 3])
  {
    EscapeAll3(s, i);
  }

  lemma Copied3(ns: seq<bv8>, s: seq<bv8>, i: nat)
    requires i + 3 <= |s|
    ensures ns + [s[i]] + [s[i + 1]] + [s[i + 2]] == ns + s[i..i + 3]
  {
  }

  lemma Escaped4(ns: seq<bv8>, s: seq<bv8>, i: nat)
    requires i + 4 <= |s|
    ensures ns + Escape(s[i]) + Escape(s[i + 1]) + Escape(s[i + 2]) + Escape(s[i + 3]) == ns + EscapeAll(s[i..i + 4])
  {
    EscapeAll4(s, i);
  }

  lemma Copied4(ns: seq<bv8>, s: seq<bv8>, i: nat)
    requires i + 4 <= |s|
    ensures ns + [s[i]] + [s[i + 1]] + [s[i + 2]] + [s[i + 3]] == ns + s[i..i + 4]
  {
  }

  lemma EscapeAll2(s: seq<bv8>, i: nat)
    requires i + 2 <= |s|
    ensures EscapeAll(s[i..i + 2]) == Escape(s[i]) + Escape(s[i + 1])
  {
    assert s[i..i + 2] == [s[i]] + [s[i + 1]];
    EscapeAllConcat([s[i]], [s[i + 1]]);
  }

  lemma EscapeAll3(s: seq<bv8>, i: nat)
    requires i + 3 <= |s|
    ensures EscapeAll(s[i..i + 3]) == Escape(s[i]) + Escape(s[i + 1]) + Escape(s[i + 2])
  {
    assert s[i..i + 3] == s[i..i + 2] + [s[i + 2]];
    EscapeAll2(s, i);
    EscapeAllSnoc(s[i..i + 2], s[i + 2]);
  }

  lemma EscapeAll4(s: seq<bv8>, i: nat)
    requires i + 4 <= |s|
    ensures EscapeAll(s[i..i + 4]) == Escape(s[i]) + Escape(s[i + 1]) + Escape(s[i + 2]) + Escape(s[i + 3])
  {
    assert s[i..i + 4] == s[i..i + 3] + [s[i + 3]];
    EscapeAll3(s, i);
    EscapeAllSnoc(s[i..i + 3], s[i + 3]);
  }

  /** The tail rule, at cursor `i`. */
  lemma TailStep(s: seq<bv8>, i: nat)
    requires i < |s| && Utf8Len(s[i]) > 0 && |s| < i + Utf8Len(s[i])
    ensures ToJson(s[i..]) == EscapeAll(s[i..])
  {
    var t := s[i..];
    assert t[..|t|] == t && t[|t|..] == [];
  }

  /** A one-byte step at cursor `i`: an ASCII byte copied or a bad lead escaped. */
  lemma OneStep(s: seq<bv8>, i: nat)
    requires i < |s| && (Utf8Len(s[i]) == 1 || Utf8Len(s[i]) == -1)
    ensures Utf8Len(s[i]) == 1 ==> ToJson(s[i..]) == [s[i]] + ToJson(s[i + 1..])
    ensures Utf8Len(s[i]) == -1 ==> ToJson(s[i..]) == Escape(s[i]) + ToJson(s[i + 1..])
  {
    assert s[i..][1..] == s[i + 1..];
  }

  /** A complete sequence at cursor `i`: escaped whole when rejected, else copied. */
  lemma SeqStep(s: seq<bv8>, i: nat, len: nat)
    requires i + len <= |s| && 2 <= len && Utf8Len(s[i]) == len
    requires forall k :: i + 1 <= k < i + len ==> IsCont(s[k])
    ensures ToJson(s[i..]) == PostCheck(s[i..i + len]) + ToJson(s[i + len..])
  {
    var t := s[i..];
    assert t[..len] == s[i..i + len] && t[len..] == s[i + len..];
    assert FirstNonCont(t, len, 1) == len by {
      forall k | 1 <= k < len ensures IsCont(t[k]) {
        assert t[k] == s[i + k];
      }
      FirstNonContAll(t, len, 1);
    }
  }

  lemma {:induction false} FirstNonContAll(s: seq<bv8>, len: nat, j: nat)
    requires 1 <= j <= len <= |s|
    requires forall k :: j <= k < len ==> IsCont(s[k])
    ensures FirstNonCont(s, len, j) == len
    decreases len - j
  {
    if j < len {
      FirstNonContAll(s, len, j + 1);
    }
  }

  /** A sequence cut short by a non-continuation byte at `i'`: the bytes before it
      are escaped and the scan resumes there. */
  lemma BrokenStep(s: seq<bv8>, i: nat, len: nat, i': nat)
    requires i + len <= |s| && 2 <= len && Utf8Len(s[i]) == len
    requires i < i' < i + len && !IsCont(s[i']) && forall k :: i < k < i' ==> IsCont(s[k])
    ensures ToJson(s[i..]) == EscapeAll(s[i..i']) + ToJson(s[i'..])
  {
    var t := s[i..];
    assert t[..i' - i] == s[i..i'] && t[i' - i..] == s[i'..];
    assert FirstNonCont(t, len, 1) == i' - i by {
      forall k | 1 <= k < i' - i ensures IsCont(t[k]) {
        assert t[k] == s[i + k];
      }
      assert t[i' - i] == s[i'];
      FirstNonContStops(t, len, 1, i' - i);
    }
  }

  lemma {:induction false} FirstNonContStops(s: seq<bv8>, len: nat, j: nat, m: nat)
    requires 1 <= j <= m < len <= |s|
    requires forall k :: j <= k < m ==> IsCont(s[k])
    requires !IsCont(s[m])
    ensures FirstNonCont(s, len, j) == m
    decreases m - j
  {
    if j < m {
      FirstNonContStops(s, len, j + 1, m);
    }
  }

  /** A leading `UTF8-char` is copied whatever follows it. */
  lemma ToJsonCopies(s: seq<bv8>)
    requires CharLen(s) > 0
    ensures ToJson(s) == s[..CharLen(s)] + ToJson(s[CharLen(s)..])
  {
  }

  /** The output is one to three times as long as the input, and as long exactly
      when the input is valid UTF-8 (nothing escaped). */
  lemma {:induction false} ToJsonLength(s: seq<bv8>)
    ensures |s| <= |ToJson(s)| <= 3 * |s|
    ensures |ToJson(s)| == |s| <==> ValidUtf8(s)
    decreases |s|
  {
    if s != [] {
      var n := Front(s).len;
      ToJsonLength(s[n..]);
    }
  }

  /** Valid UTF-8 passes through unchanged. */
  lemma {:induction false} ToJsonValid(s: seq<bv8>)
    requires ValidUtf8(s)
    ensures ToJson(s) == s
    decreases |s|
  {
    if s != [] {
      var n := CharLen(s);
      var t := s[n..];
      ToJsonValid(t);
      assert ToJson(s) == s[..n] + t by {
        ToJsonCopies(s);
      }
      TakeDrop(s, n);
    }
  }

  /** Valid UTF-8 is exactly the input `to_json_string` returns unchanged. */
  lemma ToJsonFixedPoint(s: seq<bv8>)
    ensures ToJson(s) == s <==> ValidUtf8(s)
  {
    ToJsonLength(s);
    if ValidUtf8(s) {
      ToJsonValid(s);
    }
  }

  /** A rejected run at the front is escaped byte by byte. */
  lemma ToJsonRejects(s: seq<bv8>)
    requires s != [] && Front(s).Reject?
    ensures ToJson(s) == EscapeAll(s[..Front(s).len]) + ToJson(s[Front(s).len..])
  {
  }

  /** Where no position starts a `UTF8-char`, every byte is escaped. */
  lemma {:induction false} ToJsonNoChar(s: seq<bv8>)
    requires NoCharAt(s)
    ensures ToJson(s) == EscapeAll(s)
    decreases |s|
  {
    if s != [] {
      var n := Front(s).len;
      assert CharLen(s[0..]) == 0 && s[0..] == s;
      var t := s[n..];
      assert NoCharAt(t) by {
        forall k | 0 <= k < |t| ensures CharLen(t[k..]) == 0 {
          assert t[k..] == s[n + k..];
        }
      }
      ToJsonNoChar(t);
      ToJsonRejects(s);
      EscapeAllConcat(s[..n], t);
      TakeDrop(s, n);
    }
  }

  /** A cooperating decoder gets the input back. */
  lemma {:induction false} DecodeToJson(s: seq<bv8>)
    ensures Decode(ToJson(s)) == s
    decreases |s|
  {
    if s != [] {
      var n := Front(s).len;
      DecodeToJson(s[n..]);
      if Front(s).Keep? {
        DecodeToJsonKeep(s);
      } else {
        DecodeToJsonReject(s);
      }
    }
  }

  lemma DecodeToJsonKeep(s: seq<bv8>)
    requires CharLen(s) > 0
    requires Decode(ToJson(s[CharLen(s)..])) == s[CharLen(s)..]
    ensures Decode(ToJson(s)) == s
  {
    var n := CharLen(s);
    ToJsonCopies(s);
    DecodeChar(s[..n], ToJson(s[n..]));
    TakeDrop(s, n);
  }

  lemma DecodeToJsonReject(s: seq<bv8>)
    requires s != [] && Front(s).Reject?
    requires Decode(ToJson(s[Front(s).len..])) == s[Front(s).len..]
    ensures Decode(ToJson(s)) == s
  {
    var n := Front(s).len;
    ToJsonRejects(s);
    DecodeEscapeAll(s[..n], ToJson(s[n..]));
    TakeDrop(s, n);
  }
}
