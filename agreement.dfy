/** How the two repair routines relate. Away from the end of the input they
    produce the same bytes: where `fix_utf8` escapes a lead byte and then each
    continuation byte after it on its own, `to_json_string` escapes the same run
    in one go. They part ways only at the tail rule of `to_json_string`, which
    escapes every byte left once a lead byte announces more bytes than remain. */
module Agreement {
  import opened Utf8
  import opened Utf8b
  import opened FixUtf8
  import opened Json

  /** No lead byte announces more bytes than are left after it. */
  predicate TailSafe(s: seq<bv8>) {
    forall k :: 0 <= k < |s| ==> Utf8Len(s[k]) <= |s| - k
  }

  /** A run of continuation bytes is escaped byte by byte by `fix_utf8`. */
  lemma {:induction false} RepairContRun(p: seq<bv8>, x: seq<bv8>)
    requires forall k :: 0 <= k < |p| ==> IsCont(p[k])
    ensures Repair(p + x) == EscapeAll(p) + Repair(x)
  {
    if p == [] {
      assert p + x == x;
    } else {
      RepairContRun(p[1..], x);
      ContStep(p, x);
    }
  }

  /** One step of `RepairContRun`. */
  lemma ContStep(p: seq<bv8>, x: seq<bv8>)
    requires p != [] && IsCont(p[0])
    requires Repair(p[1..] + x) == EscapeAll(p[1..]) + Repair(x)
    ensures Repair(p + x) == EscapeAll(p) + Repair(x)
  {
    var s := p + x;
    assert s[1..] == p[1..] + x;
    ContStartsNoChar(s);
    RepairEscapes(s);
    AppendAssoc(Escape(p[0]), EscapeAll(p[1..]), Repair(x));
  }

  /** A decision at the front of `s` that `fix_utf8` would reproduce: keep the
      leading `UTF8-char`, or escape a lead byte that starts none together with
      continuation bytes only. */
  predicate Resyncs(s: seq<bv8>, r: Run)
    requires s != []
  {
    && 1 <= r.len <= |s|
    && (r.Keep? ==> r.len == CharLen(s) > 0)
    && (r.Reject? ==> CharLen(s) == 0 && forall k :: 1 <= k < r.len ==> IsCont(s[k]))
  }

  /** Such a decision is what `fix_utf8` does with the same bytes. */
  lemma RunIsRepair(s: seq<bv8>, r: Run)
    requires s != [] && Resyncs(s, r)
    ensures r.Keep? ==> Repair(s) == s[..r.len] + Repair(s[r.len..])
    ensures r.Reject? ==> Repair(s) == EscapeAll(s[..r.len]) + Repair(s[r.len..])
  {
    var n := r.len;
    if r.Keep? {
      RepairCopies(s);
    } else {
      var p := s[1..n];
      assert forall k :: 0 <= k < |p| ==> p[k] == s[k + 1];
      assert s == [s[0]] + p + s[n..];
      assert s[..n] == [s[0]] + p;
      RejectIsRepair(s[0], p, s[n..]);
    }
  }

  /** A rejected lead byte and the continuation bytes after it, as `fix_utf8` sees them. */
  lemma RejectIsRepair(b: bv8, p: seq<bv8>, x: seq<bv8>)
    requires CharLen([b] + p + x) == 0
    requires forall k :: 0 <= k < |p| ==> IsCont(p[k])
    ensures Repair([b] + p + x) == EscapeAll([b] + p) + Repair(x)
  {
    var s := [b] + p + x;
    assert s[1..] == p + x;
    RepairEscapes(s);
    RepairContRun(p, x);
    assert ([b] + p)[1..] == p;
  }

  /** Away from the tail rule the two routines agree byte for byte. */
  lemma {:induction false} ToJsonIsRepair(s: seq<bv8>)
    requires TailSafe(s)
    ensures ToJson(s) == Repair(s)
    decreases |s|
  {
    if s != [] {
      var n := Front(s).len;
      var t := s[n..];
      assert TailSafe(t) by {
        forall k | 0 <= k < |t| ensures Utf8Len(t[k]) <= |t| - k {
          assert t[k] == s[n + k];
        }
      }
      ToJsonIsRepair(t);
      RunIsRepair(s, Front(s));
      if Front(s).Keep? {
        ToJsonCopies(s);
      } else {
        ToJsonRejects(s);
      }
    }
  }

  /** Any input followed by at least three ASCII bytes never reaches the tail rule. */
  lemma ToJsonIsRepairWithPadding(s: seq<bv8>, pad: seq<bv8>)
    requires |pad| >= 3 && forall k :: 0 <= k < |pad| ==> pad[k] <= 0x7F
    ensures ToJson(s + pad) == Repair(s + pad)
  {
    var t := s + pad;
    forall k | 0 <= k < |t| ensures Utf8Len(t[k]) <= |t| - k {
      if k >= |s| {
        assert t[k] == pad[k - |s|];
      }
    }
    ToJsonIsRepair(t);
  }

  /** `E2 61`: `fix_utf8` escapes the truncated lead and keeps the `a`;
      `to_json_string` escapes both. */
  lemma TailRuleDisagrees()
    ensures ToJson([0xE2, 0x61]) == EscapeAll([0xE2, 0x61])
    ensures Repair([0xE2, 0x61]) == Escape(0xE2) + [0x61]
    ensures ToJson([0xE2, 0x61]) != Repair([0xE2, 0x61])
  {
    var s: seq<bv8> := [0xE2, 0x61];
    TailStep(s, 0);
    assert s[0..] == s;
    RepairTruncatedLead();
    assert ToJson(s)[3..6] == Escape(0x61);
  }

  /** The tail rule as the comment above `to_json_string` describes it: a lead byte
      too close to the end is escaped together with the continuation bytes after it
      and no further, as `validate_seq` does elsewhere. Everywhere else the decision
      is that of `to_json_string`. */
  function FrontIntended(s: seq<bv8>): (r: Run)
    requires s != []
    ensures Resyncs(s, r)
  {
    var len := Utf8Len(s[0]);
    if len > 0 && |s| < len then Reject(FirstNonCont(s, |s|, 1))
    else Front(s)
  }

  /** `to_json_string` with the tail rule corrected. */
  function ToJsonIntended(s: seq<bv8>): seq<bv8>
    decreases |s|
  {
    if s == [] then []
    else
      match FrontIntended(s)
      case Keep(n) => s[..n] + ToJsonIntended(s[n..])
      case Reject(n) => EscapeAll(s[..n]) + ToJsonIntended(s[n..])
  }

  /** With the tail rule corrected, the two routines agree on every input. */
  lemma {:induction false} IntendedIsRepair(s: seq<bv8>)
    ensures ToJsonIntended(s) == Repair(s)
    decreases |s|
  {
    if s != [] {
      var r := FrontIntended(s);
      IntendedIsRepair(s[r.len..]);
      RunIsRepair(s, r);
    }
  }

  /** So the corrected routine keeps what follows a truncated sequence:
      `F0 90` then `t` gives the two escapes and `t`. */
  lemma IntendedKeepsTail()
    ensures ToJsonIntended([0xF0, 0x90, 0x74]) == EscapeAll([0xF0, 0x90]) + [0x74]
    ensures ToJson([0xF0, 0x90, 0x74]) == EscapeAll([0xF0, 0x90, 0x74])
  {
    var s: seq<bv8> := [0xF0, 0x90, 0x74];
    IntendedIsRepair(s);
    assert CharLen(s) == 0;
    assert CharLen(s[1..]) == 0;
    assert s[2..][..1] == [0x74];
    TailStep(s, 0);
    assert s[0..] == s;
  }
}
