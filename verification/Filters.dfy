/** Task filters evaluated at the top of the tracepoint handlers. */
module Filters {
  import opened Words
  import opened Events

  predicate FilterPid(targetPid: u32, pid: u32) {
    targetPid == 0 || pid == targetPid
  }

  /** What the command filter is meant to decide, on C strings. */
  predicate CommAdmitted(target: Comm, comm: Comm) {
    target[0] == 0 || CString(comm) == CString(target)
  }

  /** The byte-by-byte comparison decides equality of the two C strings. */
  method FilterComm(target: Comm, comm: Comm) returns (ok: bool)
    ensures ok <==> CommAdmitted(target, comm)
  {
    if target[0] == 0 {
      return true;
    }
    var i := 0;
    while i < COMM_LEN
      invariant 0 <= i <= COMM_LEN
      invariant target[..i] == comm[..i]
      invariant 0 !in target[..i]
    {
      if target[i] != comm[i] {
        MismatchSeparates(target, comm, i);
        return false;
      }
      if target[i] == 0 {
        CStringEnds(target, i);
        CStringEnds(comm, i);
        return true;
      }
      i := i + 1;
    }
    assert target[..] == target[..i] && comm[..] == comm[..i];
    return true;
  }

  lemma {:induction false} CStringEnds(s: seq<u8>, i: nat)
    requires i < |s| && s[i] == 0 && 0 !in s[..i]
    ensures CString(s) == s[..i]
  {
    if i > 0 {
      assert s[..i][0] == s[0];
      assert s[1..][..i - 1] == s[..i][1..];
      CStringEnds(s[1..], i - 1);
    }
  }

  lemma {:induction false} MismatchSeparates(a: seq<u8>, b: seq<u8>, i: nat)
    requires i < |a| == |b| && a[..i] == b[..i] && 0 !in a[..i]
    requires a[i] != b[i]
    ensures CString(a) != CString(b)
  {
    if i > 0 {
      assert a[..i][0] == a[0] && b[..i][0] == b[0];
      assert a[1..][..i - 1] == a[..i][1..] && b[1..][..i - 1] == b[..i][1..];
      MismatchSeparates(a[1..], b[1..], i - 1);
    }
  }

  function Zeros(n: nat): (z: seq<u8>)
    ensures |z| == n
    ensures forall i :: 0 <= i < n ==> z[i] == 0
  {
    seq(n, i => 0)
  }

  /** The read-only `target_comm` buffer for a configured command name. */
  function TargetComm(name: seq<u8>): Comm {
    var len := if |name| < 15 then |name| else 15;
    name[..len] + Zeros(16 - len)
  }

  /**
   For a name without NUL bytes, a task passes the filter exactly when the name
   is empty or its command equals the name cut to 15 bytes.
   */
  lemma NameFilterMeaning(name: seq<u8>, comm: Comm)
    requires 0 !in name
    ensures CommAdmitted(TargetComm(name), comm) <==>
            name == [] || CString(comm) == name[..if |name| < 15 then |name| else 15]
  {
    var len := if |name| < 15 then |name| else 15;
    var target := TargetComm(name);
    assert target[..len] == name[..len];
    assert target[len] == 0;
    if name != [] {
      assert target[0] == name[0];
      CStringEnds(target, len);
    }
  }
}
