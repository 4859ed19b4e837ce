/** WAL file names, as UTF-8 bytes: the primary's filter (`is_valid_wal_name`) and the replica's
    validator (`validate_segment_name`). */
module SegmentNames {
  import opened Bytes

  /** `split_at` panics inside a multi-byte character. */
  datatype Verdict = Accepted | Rejected | Panicked

  /** ".history" and ".partial". */
  const HISTORY: Bytes := [0x2e, 0x68, 0x69, 0x73, 0x74, 0x6f, 0x72, 0x79]
  const PARTIAL: Bytes := [0x2e, 0x70, 0x61, 0x72, 0x74, 0x69, 0x61, 0x6c]

  predicate Digit(b: Byte) { 0x30 <= b <= 0x39 }
  predicate Upper(b: Byte) { 0x41 <= b <= 0x5a }
  predicate Lower(b: Byte) { 0x61 <= b <= 0x7a }
  predicate HexDigit(b: Byte) { Digit(b) || 0x41 <= b <= 0x46 || 0x61 <= b <= 0x66 }
  predicate Continuation(b: Byte) { 0x80 <= b <= 0xbf }

  /** The character test inlined in `is_valid_wal_name`. */
  predicate PrimaryHex(b: Byte) { HexDigit(b) && (Digit(b) || Upper(b)) }

  /** `is_upper_hex` of `validate_segment_name`. */
  predicate ReplicaHex(b: Byte) { Digit(b) || ((Upper(b) || Lower(b)) && Upper(b) && HexDigit(b)) }

  predicate EndsWith(s: Bytes, suffix: Bytes) { |s| >= |suffix| && s[|s| - |suffix|..] == suffix }

  function StripSuffix(s: Bytes, suffix: Bytes): Option<Bytes> {
    if EndsWith(s, suffix) then Some(s[..|s| - |suffix|]) else None
  }

  function IsValidWalName(name: Bytes): Verdict {
    if |name| < 9 || |name| > 32 then Rejected
    else if Continuation(name[8]) then Panicked
    else
      var head, tail := name[..8], name[8..];
      if exists b :: b in head && !PrimaryHex(b) then Rejected
      else if tail == HISTORY then Accepted
      else
        var mid := StripSuffix(tail, PARTIAL).GetOr(tail);
        if |mid| != 16 then Rejected
        else if exists b :: b in mid && !PrimaryHex(b) then Rejected
        else Accepted
  }

  function ValidateSegmentName(name: Bytes): Verdict {
    if name == [] then Rejected
    else if |name| < 9 || |name| > 32 then Rejected
    else if Continuation(name[8]) then Panicked
    else
      var head, tail := name[..8], name[8..];
      if !(forall b :: b in head ==> ReplicaHex(b)) then Rejected
      else if tail == HISTORY then Accepted
      else
        var (mid, ext) := match StripSuffix(tail, PARTIAL)
                          case Some(stripped) => (stripped, PARTIAL)
                          case None => (tail, []);
        if |mid| != 16 then Rejected
        else if !(forall b :: b in mid ==> ReplicaHex(b)) then Rejected
        else if ext != [] && ext != PARTIAL then Rejected
        else Accepted
  }

  // ----- the documented forms -----

  predicate HexString(s: Bytes) { forall i :: 0 <= i < |s| ==> Digit(s[i]) || 0x41 <= s[i] <= 0x46 }

  /** 24 upper-case hex digits, the same before ".partial", or 8 of them before ".history". */
  predicate PostgresName(name: Bytes) {
    || (|name| == 24 && HexString(name))
    || (|name| == 32 && HexString(name[..24]) && name[24..] == [0x2e, 0x70, 0x61, 0x72, 0x74, 0x69, 0x61, 0x6c])
    || (|name| == 16 && HexString(name[..8]) && name[8..] == [0x2e, 0x68, 0x69, 0x73, 0x74, 0x6f, 0x72, 0x79])
  }

  /** The two validators agree on every byte string: they accept exactly the documented forms, and both
      panic exactly when a character straddles byte 8 of a name of admissible length. */
  lemma ValidatorsAgree(name: Bytes)
    ensures IsValidWalName(name) == ValidateSegmentName(name)
    ensures IsValidWalName(name) == Accepted <==> PostgresName(name)
    ensures IsValidWalName(name) == Panicked <==> 9 <= |name| <= 32 && Continuation(name[8])
  {
    if 9 <= |name| <= 32 && !Continuation(name[8]) {
      var head, tail := name[..8], name[8..];
      HexByMembers(head);
      if EndsWith(tail, PARTIAL) {
        AgreeOnMiddle(name, head, tail[..|tail| - 8]);
        assert name[|name| - 8] == tail[|tail| - 8..][0] == 0x2e;
        if |name| == 32 {
          assert name[24..] == tail[16..];
        }
      } else {
        AgreeOnMiddle(name, head, tail);
        assert |name| == 32 ==> name[24..] == tail[16..];
      }
    }
  }

  lemma HexByMembers(s: Bytes)
    ensures HexString(s) <==> forall b :: b in s ==> PrimaryHex(b)
    ensures HexString(s) <==> forall b :: b in s ==> ReplicaHex(b)
  {
    if forall b :: b in s ==> PrimaryHex(b) {
      assert forall i :: 0 <= i < |s| ==> s[i] in s;
    }
    if forall b :: b in s ==> ReplicaHex(b) {
      assert forall i :: 0 <= i < |s| ==> s[i] in s;
    }
  }

  lemma AgreeOnMiddle(name: Bytes, head: Bytes, mid: Bytes)
    requires |head| == 8 && head + mid <= name
    ensures HexString(head) && HexString(mid) <==> HexString(name[..8 + |mid|])
    ensures HexString(mid) <==> forall b :: b in mid ==> PrimaryHex(b)
    ensures HexString(mid) <==> forall b :: b in mid ==> ReplicaHex(b)
  {
    HexByMembers(mid);
    assert name[..8 + |mid|] == head + mid;
    if HexString(head + mid) {
      assert forall i :: 0 <= i < 8 ==> head[i] == (head + mid)[i];
      assert forall i :: 0 <= i < |mid| ==> mid[i] == (head + mid)[8 + i];
    }
  }
}
