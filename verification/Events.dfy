/** The event record shared by the in-kernel probes and user space. */
module Events {
  import opened Words

  const COMM_LEN: nat := 16

  /** The fixed `char[16]` buffer that holds a task's command name. */
  type Comm = s: seq<u8> | |s| == 16 witness [0, 0, 0, 0, 0, 0, 0, 0, 0, 0, 0, 0, 0, 0, 0, 0]

  const EV_NONE: u32 := 0
  const EV_SYSCALL_SLOW: u32 := 1
  const EV_OFFCPU_SLICE: u32 := 2
  const EV_LOCK_WAIT: u32 := 3
  const EV_IO_WAIT: u32 := 4
  const EV_PROC_EXEC: u32 := 5
  const EV_PROC_EXIT: u32 := 6

  const LAT_UNKNOWN: u32 := 0
  const LAT_OFF_CPU: u32 := 2

  datatype Event = Event(
    timestampNs: u64,
    pid: u32,
    tid: u32,
    comm: Comm,
    cpu: u32,
    kind: u32,
    classification: u32,
    durationNs: u64,
    syscallId: u64,
    userStackId: i64,
    kernStackId: i64,
    flags: u32)

  /** The bytes before the first NUL, or all of them. */
  function CString(s: seq<u8>): (r: seq<u8>)
    ensures |r| <= |s| && r == s[..|r|]
    ensures 0 !in r
    ensures |r| < |s| ==> s[|r|] == 0
  {
    if s == [] || s[0] == 0 then [] else [s[0]] + CString(s[1..])
  }

  /** Bit 0 of `flags`: the user stack id is valid. */
  predicate HasUserStack(flags: u32) {
    flags % 2 == 1
  }

  /** Bit 1 of `flags`: the kernel stack id is valid. */
  predicate HasKernStack(flags: u32) {
    flags / 2 % 2 == 1
  }

  /** The stack flags tell exactly which stack ids are valid. */
  predicate FlagsAgree(flags: u32, userStackId: i64, kernStackId: i64) {
    && (HasUserStack(flags) <==> userStackId >= 0)
    && (HasKernStack(flags) <==> kernStackId >= 0)
  }

  /** Events that are timed as a system call. */
  predicate IsSyscallKind(kind: u32) {
    kind == EV_SYSCALL_SLOW || kind == EV_IO_WAIT || kind == EV_LOCK_WAIT
  }

  /** Events that carry a latency and reach the statistics. */
  predicate IsLatencyKind(kind: u32) {
    IsSyscallKind(kind) || kind == EV_OFFCPU_SLICE
  }
}
