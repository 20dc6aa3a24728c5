/** Splitting a command line in place and laying the words out on the user stack (pintos/userprog/process.c,
    strtok_r in pintos/lib/string.c). Characters are bytes; 0 ends a string. */
module Argv {
  import opened Wrappers

  type Bytes = seq<nat>

  // ----- the words of a command line --------------------------------------------------------

  predicate CommandLine(cmd: Bytes) { forall k | 0 <= k < |cmd| :: 0 < cmd[k] < 256 }

  /** The first place from i on that is not a delimiter. */
  function SkipDelims(s: Bytes, ds: set<nat>, i: nat): (j: nat)
    requires i <= |s|
    ensures i <= j <= |s| && (forall k | i <= k < j :: s[k] in ds) && (j < |s| ==> s[j] !in ds)
    decreases |s| - i
  {
    if i < |s| && s[i] in ds then SkipDelims(s, ds, i + 1) else i
  }

  /** The first place from i on that is a delimiter or the end. */
  function WordEnd(s: Bytes, ds: set<nat>, i: nat): (j: nat)
    requires i <= |s|
    ensures i <= j <= |s| && (forall k | i <= k < j :: s[k] !in ds) && (j < |s| ==> s[j] in ds)
    decreases |s| - i
  {
    if i < |s| && s[i] !in ds then WordEnd(s, ds, i + 1) else i
  }

  datatype Run = Run(start: nat, end: nat)

  predicate RunsIn(cmd: Bytes, runs: seq<Run>) {
    forall k {:trigger runs[k]} | 0 <= k < |runs| :: runs[k].start <= runs[k].end <= |cmd|
  }

  /** The words from i on, by where they start and end. */
  function Runs(s: Bytes, ds: set<nat>, i: nat): (r: seq<Run>)
    requires i <= |s|
    ensures RunsIn(s, r)
    decreases |s| - i
  {
    var start := SkipDelims(s, ds, i);
    if start == |s| then []
    else
      var end := WordEnd(s, ds, start);
      [Run(start, end)] + Runs(s, ds, end)
  }

  /** A maximal run of characters that are not delimiters. */
  predicate IsRun(s: Bytes, ds: set<nat>, r: Run) {
    && r.start < r.end <= |s| && (forall k | r.start <= k < r.end :: s[k] !in ds)
    && (r.start > 0 ==> s[r.start - 1] in ds) && (r.end < |s| ==> s[r.end] in ds)
  }

  /** No run goes across i. */
  predicate Between(s: Bytes, ds: set<nat>, i: nat) {
    i == 0 || i >= |s| || s[i - 1] in ds || s[i] in ds
  }

  /** Every word is a maximal run, ... */
  lemma {:induction false} RunsAreRuns(s: Bytes, ds: set<nat>, i: nat, a: nat)
    requires i <= |s| && Between(s, ds, i) && a < |Runs(s, ds, i)|
    ensures IsRun(s, ds, Runs(s, ds, i)[a]) && i <= Runs(s, ds, i)[a].start
    decreases |s| - i
  {
    var start := SkipDelims(s, ds, i);
    var end := WordEnd(s, ds, start);
    FirstRun(s, ds, i, start, end);
    if a > 0 {
      RunsAreRuns(s, ds, end, a - 1);
      assert Runs(s, ds, i)[a] == Runs(s, ds, i)[1..][a - 1];
    }
  }

  /** ... they come in order, ... */
  lemma {:induction false} RunsInOrder(s: Bytes, ds: set<nat>, i: nat, a: nat, b: nat)
    requires i <= |s| && Between(s, ds, i) && a < b < |Runs(s, ds, i)|
    ensures Runs(s, ds, i)[a].end < Runs(s, ds, i)[b].start
    decreases |s| - i
  {
    var start := SkipDelims(s, ds, i);
    var end := WordEnd(s, ds, start);
    FirstRun(s, ds, i, start, end);
    var rest := Runs(s, ds, end);
    assert Runs(s, ds, i)[b] == Runs(s, ds, i)[1..][b - 1];
    if a > 0 {
      RunsInOrder(s, ds, end, a - 1, b - 1);
      assert Runs(s, ds, i)[a] == Runs(s, ds, i)[1..][a - 1];
    } else {
      RunsAreRuns(s, ds, end, b - 1);
      assert s[rest[b - 1].start] !in ds;
    }
  }

  /** ... and none is missed. */
  lemma {:induction false} RunFound(s: Bytes, ds: set<nat>, i: nat, r: Run)
    requires i <= |s| && Between(s, ds, i) && IsRun(s, ds, r) && r.start >= i
    ensures r in Runs(s, ds, i)
    decreases |s| - i
  {
    var start := SkipDelims(s, ds, i);
    assert s[r.start] !in ds;
    assert start <= r.start;
    var end := WordEnd(s, ds, start);
    FirstRun(s, ds, i, start, end);
    if r.start < end {
      SameRun(s, ds, r, Run(start, end));
      assert Runs(s, ds, i)[0] == r;
    } else {
      RunFound(s, ds, end, r);
      assert r in Runs(s, ds, i)[1..];
    }
  }

  /** Two maximal runs that meet are the same. */
  lemma SameRun(s: Bytes, ds: set<nat>, q: Run, r: Run)
    requires IsRun(s, ds, q) && IsRun(s, ds, r) && r.start <= q.start < r.end
    ensures q == r
  {
    assert q.start > 0 ==> s[q.start - 1] in ds;
    assert q.end < |s| ==> s[q.end] in ds;
    assert r.end < |s| ==> s[r.end] in ds;
  }

  /** The words are the maximal runs, all of them, in order. */
  lemma RunsAreMaximal(s: Bytes, ds: set<nat>, i: nat)
    requires i <= |s| && Between(s, ds, i)
    ensures forall a | 0 <= a < |Runs(s, ds, i)| :: IsRun(s, ds, Runs(s, ds, i)[a]) && i <= Runs(s, ds, i)[a].start
    ensures forall a, b | 0 <= a < b < |Runs(s, ds, i)| :: Runs(s, ds, i)[a].end < Runs(s, ds, i)[b].start
    ensures forall r | IsRun(s, ds, r) && r.start >= i :: r in Runs(s, ds, i)
  {
    var runs := Runs(s, ds, i);
    forall a | 0 <= a < |runs| ensures IsRun(s, ds, runs[a]) && i <= runs[a].start { RunsAreRuns(s, ds, i, a); }
    forall a, b | 0 <= a < b < |runs| ensures runs[a].end < runs[b].start { RunsInOrder(s, ds, i, a, b); }
    forall r | IsRun(s, ds, r) && r.start >= i ensures r in runs { RunFound(s, ds, i, r); }
  }

  lemma FirstRun(s: Bytes, ds: set<nat>, i: nat, start: nat, end: nat)
    requires i <= |s| && start == SkipDelims(s, ds, i) < |s| && end == WordEnd(s, ds, start)
    ensures start < end && Runs(s, ds, i) != [] && Runs(s, ds, i)[0] == Run(start, end)
            && Runs(s, ds, i)[1..] == Runs(s, ds, end)
  {
  }

  lemma SkipDelimiter(s: Bytes, ds: set<nat>, end: nat)
    requires end < |s| && s[end] in ds
    ensures Runs(s, ds, end + 1) == Runs(s, ds, end)
  {
    assert SkipDelims(s, ds, end) == SkipDelims(s, ds, end + 1);
  }

  // ----- strtok_r -----------------------------------------------------------------------------

  /** strchr (string, c) != NULL: the terminator counts as part of the string. */
  predicate Strchr(string_: Bytes, c: nat) { c == 0 || c in string_ }

  /** The buffer holds the command line from s on. */
  ghost predicate Holds(buf: seq<nat>, cmd: Bytes, s: nat) {
    && |buf| == |cmd| + 1 && buf[|cmd|] == 0 && s <= |cmd|
    && forall k | s <= k < |cmd| :: buf[k] == cmd[k]
  }

  /** The word of a run sits in the buffer at its place, ended by NUL. */
  ghost predicate WordAt(buf: seq<nat>, cmd: Bytes, r: Run) {
    r.start <= r.end < |buf| && r.end <= |cmd| && buf[r.start..r.end] == cmd[r.start..r.end] && buf[r.end] == 0
  }

  /** ds is the set of the characters of a NUL-terminated string. */
  ghost predicate CharsOf(delimiters: Bytes, ds: set<nat>) {
    0 !in delimiters && forall c :: c in ds <==> c in delimiters
  }

  /** The first loop of strtok_r: it stops at the end or at a character that is not a delimiter. */
  method SkipDelimiters(buf: array<nat>, start: nat, delimiters: Bytes, ghost ds: set<nat>, ghost cmd: Bytes)
    returns (s: nat)
    requires CommandLine(cmd) && Holds(buf[..], cmd, start) && CharsOf(delimiters, ds)
    ensures s == SkipDelims(cmd, ds, start)
  {
    s := start;
    while Strchr(delimiters, buf[s])
      invariant start <= s <= |cmd| && SkipDelims(cmd, ds, s) == SkipDelims(cmd, ds, start)
      decreases |cmd| - s
    {
      if buf[s] == 0 {
        return;
      }
      s := s + 1;
    }
  }

  /** The second loop: the end counts as a delimiter. */
  method FindDelimiter(buf: array<nat>, first: nat, delimiters: Bytes, ghost ds: set<nat>, ghost cmd: Bytes)
    returns (s: nat)
    requires CommandLine(cmd) && Holds(buf[..], cmd, first) && CharsOf(delimiters, ds)
    ensures s == WordEnd(cmd, ds, first)
  {
    s := first;
    while !Strchr(delimiters, buf[s])
      invariant first <= s <= |cmd| && WordEnd(cmd, ds, s) == WordEnd(cmd, ds, first)
      decreases |cmd| - s
    {
      s := s + 1;
    }
  }

  /** What strtok_r finds from start on: the next word, ended by NUL, or none. */
  ghost predicate NextToken(buf: seq<nat>, cmd: Bytes, ds: set<nat>, start: nat, token: Option<nat>, save: nat)
    requires start <= |cmd|
  {
    var runs := Runs(cmd, ds, start);
    && start <= save <= |cmd|
    && match token
       case None => runs == []
       case Some(t) => && runs != [] && t == runs[0].start < |cmd| && WordAt(buf, cmd, runs[0])
                       && start <= runs[0].end <= save && runs[1..] == Runs(cmd, ds, save)
  }

  lemma TokenEnded(was: seq<nat>, buf: seq<nat>, cmd: Bytes, ds: set<nat>, start: nat, first: nat, s: nat, save: nat)
    requires CommandLine(cmd) && Holds(was, cmd, start) && first == SkipDelims(cmd, ds, start) < |cmd|
             && s == WordEnd(cmd, ds, first)
    requires if s < |cmd| then buf == was[s := 0] && save == s + 1 else buf == was && save == s
    ensures NextToken(buf, cmd, ds, start, Some(first), save) && Holds(buf, cmd, save)
            && Runs(cmd, ds, start)[0].end == s > start
  {
    FirstRun(cmd, ds, start, first, s);
    if s < |cmd| {
      SkipDelimiter(cmd, ds, s);
    }
    assert buf[first..s] == cmd[first..s];
  }

  /** strtok_r (NULL, delimiters, &save_ptr) with the saved pointer at start: finds the next word and ends it with
      NUL. */
  method StrtokR(buf: array<nat>, start: nat, delimiters: Bytes, ghost ds: set<nat>, ghost cmd: Bytes)
    returns (token: Option<nat>, save: nat)
    requires CommandLine(cmd) && Holds(buf[..], cmd, start) && CharsOf(delimiters, ds)
    modifies buf
    ensures NextToken(buf[..], cmd, ds, start, token, save) && Holds(buf[..], cmd, save)
    ensures forall k | 0 <= k < buf.Length && !(token.Some? && k == Runs(cmd, ds, start)[0].end) ::
              buf[k] == old(buf[k])
    ensures token.Some? ==> start < Runs(cmd, ds, start)[0].end
  {
    var first := SkipDelimiters(buf, start, delimiters, ds, cmd);
    if buf[first] == 0 {
      return None, first;
    }
    var s := FindDelimiter(buf, first, delimiters, ds, cmd);
    ghost var was := buf[..];
    token := Some(first);
    if buf[s] != 0 {
      buf[s] := 0;
      save := s + 1;
    } else {
      save := s;
    }
    TokenEnded(was, buf[..], cmd, ds, start, first, s, save);
  }

  /** The delimiters of load. */
  const SPACES: set<nat> := {32}

  /** The words found so far. */
  ghost predicate Found(buf: seq<nat>, argv: seq<nat>, cmd: Bytes, runs: seq<Run>, argc: nat, save: nat) {
    && argc <= |runs| && argc <= |argv|
    && forall i | 0 <= i < argc :: argv[i] == runs[i].start && WordAt(buf, cmd, runs[i]) && runs[i].end <= save
  }

  lemma StillFound(buf: seq<nat>, buf': seq<nat>, argv: seq<nat>, argv': seq<nat>, cmd: Bytes, runs: seq<Run>,
                   argc: nat, save: nat)
    requires Found(buf, argv, cmd, runs, argc, save) && |buf'| == |buf| && argc <= |argv'| && save < |buf|
    requires (forall k | 0 <= k <= save :: buf'[k] == buf[k]) && forall i | 0 <= i < argc :: argv'[i] == argv[i]
    ensures Found(buf', argv', cmd, runs, argc, save)
  {
    forall i | 0 <= i < argc ensures argv'[i] == runs[i].start && WordAt(buf', cmd, runs[i]) && runs[i].end <= save {
      assert WordAt(buf, cmd, runs[i]);
    }
  }

  /** The loop of load: argc words are in argv, token is the next one, and the saved pointer is save. */
  ghost predicate Splitting(buf: array<nat>, argv: array<nat>, cmd: Bytes, argc: nat, start: nat, token: Option<nat>,
                            save: nat)
    reads buf, argv
  {
    var runs := Runs(cmd, SPACES, 0);
    && CommandLine(cmd) && argv.Length == 64 && argv != buf
    && argc <= 64 && argc <= |runs| && start <= save <= |cmd| && Holds(buf[..], cmd, save)
    && Found(buf[..], argv[..], cmd, runs, argc, start)
    && (token.None? ==> argc == |runs|)
    && (token.Some? ==> argc < |runs| && token.value == runs[argc].start && WordAt(buf[..], cmd, runs[argc])
                        && start <= runs[argc].end <= save && runs[argc + 1..] == Runs(cmd, SPACES, save))
  }

  /** One round: the word goes to argv, and strtok_r looks for the next. */
  method NextWord(buf: array<nat>, argv: array<nat>, ghost cmd: Bytes, argc: nat, ghost start: nat, word: nat, at: nat)
    returns (token: Option<nat>, save: nat)
    requires Splitting(buf, argv, cmd, argc, start, Some(word), at) && argc < 64
    modifies buf, argv
    ensures Splitting(buf, argv, cmd, argc + 1, at, token, save)
  {
    ghost var runs, argv0, buf0 := Runs(cmd, SPACES, 0), argv[..], buf[..];
    argv[argc] := word;
    StillFound(buf0, buf0, argv0, argv[..], cmd, runs, argc, start);
    assert Found(buf0, argv[..], cmd, runs, argc + 1, at);
    token, save := StrtokR(buf, at, [32], SPACES, cmd);
    StillFound(buf0, buf[..], argv[..], argv[..], cmd, runs, argc + 1, at);
    if token.Some? {
      assert runs[argc + 1..][0] == runs[argc + 1] && runs[argc + 1..][1..] == runs[argc + 2..];
    }
  }

  /** load's loop: at most 64 words, or it fails. */
  method Tokenise(buf: array<nat>, argv: array<nat>, ghost cmd: Bytes) returns (ok: bool, argc: nat)
    requires CommandLine(cmd) && Holds(buf[..], cmd, 0) && argv.Length == 64 && argv != buf
    modifies buf, argv
    ensures ok <==> |Runs(cmd, SPACES, 0)| <= 64
    ensures ok ==> argc == |Runs(cmd, SPACES, 0)| && Found(buf[..], argv[..], cmd, Runs(cmd, SPACES, 0), argc, |cmd|)
  {
    ghost var start := 0;
    argc := 0;
    var token, save := StrtokR(buf, 0, [32], SPACES, cmd);
    while token.Some?
      invariant Splitting(buf, argv, cmd, argc, start, token, save)
      decreases |Runs(cmd, SPACES, 0)| - argc, token.Some?
    {
      if argc >= 64 {
        return false, argc;
      }
      ghost var at := save;
      token, save := NextWord(buf, argv, cmd, argc, start, token.value, save);
      argc, start := argc + 1, at;
    }
    ok := true;
  }

  // ----- memory words ----------------------------------------------------------------------------

  /** v as n bytes, the lowest first. */
  function ToBytes(v: nat, n: nat): (b: Bytes)
    ensures |b| == n
    decreases n
  {
    if n == 0 then [] else [v % 256] + ToBytes(v / 256, n - 1)
  }

  function FromBytes(b: Bytes): nat {
    if b == [] then 0 else b[0] + 256 * FromBytes(b[1..])
  }

  function Pow256(n: nat): nat { if n == 0 then 1 else 256 * Pow256(n - 1) }

  lemma {:induction false} BytesBack(v: nat, n: nat)
    requires v < Pow256(n)
    ensures FromBytes(ToBytes(v, n)) == v
    decreases n
  {
    if n > 0 {
      BytesBack(v / 256, n - 1);
      assert ToBytes(v, n)[1..] == ToBytes(v / 256, n - 1);
    }
  }

  lemma {:induction false} ZeroWord(b: Bytes)
    requires forall k | 0 <= k < |b| :: b[k] == 0
    ensures FromBytes(b) == 0
  {
    if b != [] {
      ZeroWord(b[1..]);
    }
  }

  lemma WordBack(v: nat)
    requires v < 0x1_0000_0000_0000_0000
    ensures FromBytes(ToBytes(v, 8)) == v
  {
    assert Pow256(4) == 0x1_0000_0000 && Pow256(8) == 0x1_0000_0000_0000_0000;
    BytesBack(v, 8);
  }

  /** The bytes from at on are b; the others are as in was. */
  ghost predicate StoredAt(was: seq<nat>, mem: seq<nat>, at: nat, b: Bytes) {
    && |mem| == |was| && at + |b| <= |mem|
    && forall k {:trigger mem[k]} | 0 <= k < |mem| :: mem[k] == if at <= k < at + |b| then b[k - at] else was[k]
  }

  lemma StoredBack(was: seq<nat>, mem: seq<nat>, at: nat, v: nat)
    requires v < 0x1_0000_0000_0000_0000 && StoredAt(was, mem, at, ToBytes(v, 8))
    ensures mem[at..at + 8] == ToBytes(v, 8) && FromBytes(mem[at..at + 8]) == v
  {
    WordBack(v);
  }

  /** A store of the 8-byte word v. */
  method StoreWord(mem: array<nat>, at: nat, v: nat)
    requires at + 8 <= mem.Length && v < 0x1_0000_0000_0000_0000
    modifies mem
    ensures mem[at..at + 8] == ToBytes(v, 8) && FromBytes(mem[at..at + 8]) == v
    ensures forall k | 0 <= k < mem.Length && !(at <= k < at + 8) :: mem[k] == old(mem[k])
  {
    var bytes := ToBytes(v, 8);
    ghost var was := mem[..];
    var i := 0;
    while i < 8
      invariant 0 <= i <= 8
      invariant forall k | 0 <= k < mem.Length :: mem[k] == if at <= k < at + i then bytes[k - at] else was[k]
    {
      mem[at + i] := bytes[i];
      i := i + 1;
    }
    StoredBack(was, mem[..], at, v);
    assert mem[at..at + 8] == mem[..][at..at + 8];
  }

  // ----- strings on the stack ----------------------------------------------------------------------

  /** The user stack's one page: addresses from STACK_PAGE to USER_STACK. */
  const USER_STACK := 0x4748_0000
  const STACK_PAGE := 0x4747_F000

  /** The string that a C program sees at a place in memory. */
  function CString(mem: seq<nat>, at: nat): Bytes
    decreases |mem| - at
  {
    if at < |mem| && mem[at] != 0 then [mem[at]] + CString(mem, at + 1) else []
  }

  ghost predicate StringAt(mem: seq<nat>, at: nat, w: Bytes) {
    at + |w| < |mem| && mem[at + |w|] == 0 && forall k {:trigger w[k]} | 0 <= k < |w| :: mem[at + k] == w[k]
  }

  lemma {:induction false} ReadString(mem: seq<nat>, at: nat, w: Bytes)
    requires StringAt(mem, at, w) && forall k | 0 <= k < |w| :: w[k] != 0
    ensures CString(mem, at) == w
    decreases |w|
  {
    if w != [] {
      assert mem[at] == w[0];
      forall k | 0 <= k < |w[1..]| ensures mem[at + 1 + k] == w[1..][k] {
        assert w[1..][k] == w[k + 1];
      }
      ReadString(mem, at + 1, w[1..]);
    }
  }

  function Word(cmd: Bytes, r: Run): Bytes
    requires r.start <= r.end <= |cmd|
  {
    cmd[r.start..r.end]
  }

  /** The room of the words from the i-th on, with their NULs. */
  function Room(runs: seq<Run>, i: nat): nat
    requires i <= |runs| && forall k | 0 <= k < |runs| :: runs[k].start <= runs[k].end
    decreases |runs| - i
  {
    if i == |runs| then 0 else runs[i].end - runs[i].start + 1 + Room(runs, i + 1)
  }

  /** & -8. */
  function AlignDown(x: nat): nat { x - x % 8 }

  /** Strings, NULL, pointers and the return address fit the page. */
  ghost predicate FitsPage(cmd: Bytes, runs: seq<Run>)
    requires RunsIn(cmd, runs)
  {
    Room(runs, 0) <= 4096 && 8 * (|runs| + 2) <= AlignDown(4096 - Room(runs, 0))
  }

  /** A word of one letter and one of 4088 leave no room for their pointers. */
  lemma LongSecondWord(cmd: Bytes)
    requires |cmd| == 4090 && cmd[1] == 32 && forall k | 0 <= k < 4090 && k != 1 :: cmd[k] == 97
    ensures CommandLine(cmd) && Runs(cmd, SPACES, 0) == [Run(0, 1), Run(2, 4090)]
    ensures !FitsPage(cmd, Runs(cmd, SPACES, 0))
  {
    var runs := Runs(cmd, SPACES, 0);
    assert SkipDelims(cmd, SPACES, 0) == 0 && WordEnd(cmd, SPACES, 0) == 1;
    assert SkipDelims(cmd, SPACES, 1) == 2 && WordEnd(cmd, SPACES, 2) == 4090;
    assert Runs(cmd, SPACES, 4090) == [];
    assert Runs(cmd, SPACES, 1) == [Run(2, 4090)];
    assert Room(runs, 2) == 0 && Room(runs, 1) == 4089 && Room(runs, 0) == 4091;
  }

  lemma {:induction false} RoomShrinks(runs: seq<Run>, i: nat, j: nat)
    requires i <= j <= |runs| && forall k | 0 <= k < |runs| :: runs[k].start <= runs[k].end
    ensures Room(runs, j) <= Room(runs, i)
    decreases j - i
  {
    if i < j {
      RoomShrinks(runs, i + 1, j);
    }
  }

  /** Where word i goes. */
  ghost function Place(runs: seq<Run>, i: nat): int
    requires i <= |runs| && forall k | 0 <= k < |runs| :: runs[k].start <= runs[k].end
  {
    4096 - Room(runs, i)
  }

  /** The words from the i-th on are on the stack, and argv points to them. */
  ghost predicate StringsOn(mem: seq<nat>, argv: seq<nat>, cmd: Bytes, runs: seq<Run>, i: nat)
    requires RunsIn(cmd, runs) && |mem| == 4096
  {
    && i <= |runs| <= |argv|
    && forall j {:trigger Place(runs, j)} | i <= j < |runs| ::
         Place(runs, j) >= 0 && argv[j] == STACK_PAGE + Place(runs, j)
           && StringAt(mem, Place(runs, j), Word(cmd, runs[j]))
  }

  /** Writing below the words keeps them. */
  lemma StringsStay(mem: seq<nat>, mem': seq<nat>, argv: seq<nat>, argv': seq<nat>, cmd: Bytes, runs: seq<Run>, i: nat)
    requires RunsIn(cmd, runs) && |mem| == |mem'| == 4096 && StringsOn(mem, argv, cmd, runs, i) && Place(runs, i) >= 0
    requires (forall k | Place(runs, i) <= k < 4096 :: mem'[k] == mem[k]) && |argv'| == |argv|
             && forall j | i <= j < |runs| :: argv'[j] == argv[j]
    ensures StringsOn(mem', argv', cmd, runs, i)
  {
    forall j | i <= j < |runs|
      ensures Place(runs, j) >= 0 && argv'[j] == STACK_PAGE + Place(runs, j)
              && StringAt(mem', Place(runs, j), Word(cmd, runs[j]))
    {
      RoomShrinks(runs, i, j);
      var at, w := Place(runs, j), Word(cmd, runs[j]);
      assert StringAt(mem, at, w);
    }
  }

  /** CSTR_SIZE: strlen plus one. */
  method CstrSize(buf: array<nat>, at: nat, ghost w: Bytes) returns (size: nat)
    requires StringAt(buf[..], at, w) && forall k | 0 <= k < |w| :: w[k] != 0
    ensures size == |w| + 1
  {
    var n := 0;
    ghost var z := w + [0];
    forall k | 0 <= k <= |w| ensures z[k] == buf[at + k] {
      if k < |w| { assert w[k] == buf[at + k]; }
    }
    while buf[at + n] != 0
      invariant n <= |w|
      decreases |w| - n
    {
      n := n + 1;
    }
    assert z[n] == buf[at + n];
    size := n + 1;
  }

  /** memcpy between the buffer and the stack page. */
  method Memcpy(mem: array<nat>, to: nat, buf: array<nat>, from: nat, size: nat)
    requires to + size <= mem.Length && from + size <= buf.Length && mem != buf
    modifies mem
    ensures forall k | 0 <= k < mem.Length :: mem[k] == if to <= k < to + size then buf[from + (k - to)]
                                              else old(mem[k])
  {
    var i := 0;
    while i < size
      invariant 0 <= i <= size
      invariant forall k | 0 <= k < mem.Length :: mem[k] == if to <= k < to + i then buf[from + (k - to)]
                                                  else old(mem[k])
    {
      mem[to + i] := buf[from + i];
      i := i + 1;
    }
  }

  // ----- laying out -----------------------------------------------------------------------------------

  /** What Tokenise leaves in the buffer, word by word. */
  ghost predicate WordsIn(buf: seq<nat>, argv: seq<nat>, cmd: Bytes, runs: seq<Run>, n: nat)
    requires RunsIn(cmd, runs)
  {
    && n <= |runs| <= |argv| && CommandLine(cmd)
    && forall j {:trigger runs[j]} | 0 <= j < n :: StringAt(buf, argv[j], Word(cmd, runs[j]))
  }

  /** Copies the words to the stack, the last one first, and makes argv point there; stops before a copy that
      would leave the page. */
  method PushStrings(mem: array<nat>, buf: array<nat>, argv: array<nat>, argc: nat, ghost cmd: Bytes,
                     ghost runs: seq<Run>)
    returns (inPage: bool, sp: nat)
    requires mem.Length == 4096 && mem != buf && argv != buf && argv != mem && argc == |runs|
    requires RunsIn(cmd, runs) && WordsIn(buf[..], argv[..], cmd, runs, argc)
    modifies mem, argv
    ensures inPage <==> Room(runs, 0) <= 4096
    ensures inPage ==> sp == Place(runs, 0) && StringsOn(mem[..], argv[..], cmd, runs, 0)
  {
    inPage, sp := true, 4096;
    var argi: int := argc - 1;
    while argi >= 0
      invariant -1 <= argi < argc && inPage && sp == Place(runs, argi + 1)
      invariant StringsOn(mem[..], argv[..], cmd, runs, argi + 1) && WordsIn(buf[..], argv[..], cmd, runs, argi + 1)
    {
      inPage, sp := PushString(mem, buf, argv, argi, sp, cmd, runs);
      if !inPage {
        RoomShrinks(runs, 0, argi);
        return;
      }
      argi := argi - 1;
    }
  }

  /** Copies one word, unless it would leave the page. */
  method PushString(mem: array<nat>, buf: array<nat>, argv: array<nat>, argi: nat, top: nat, ghost cmd: Bytes,
                    ghost runs: seq<Run>)
    returns (inPage: bool, sp: nat)
    requires mem.Length == 4096 && mem != buf && argv != buf && argv != mem && argi < |runs| && RunsIn(cmd, runs)
    requires top == Place(runs, argi + 1) && StringsOn(mem[..], argv[..], cmd, runs, argi + 1)
    requires WordsIn(buf[..], argv[..], cmd, runs, argi + 1)
    modifies mem, argv
    ensures inPage <==> Place(runs, argi) >= 0
    ensures inPage ==> sp == Place(runs, argi) && StringsOn(mem[..], argv[..], cmd, runs, argi)
                       && WordsIn(buf[..], argv[..], cmd, runs, argi)
  {
    ghost var w := Word(cmd, runs[argi]);
    assert StringAt(buf[..], argv[argi], w);
    WordNotNul(cmd, runs[argi]);
    var size := CstrSize(buf, argv[argi], w);
    if top < size {
      return false, 0;
    }
    ghost var mem0, argv0 := mem[..], argv[..];
    sp := top - size;
    Memcpy(mem, sp, buf, argv[argi], size);
    CopiedString(buf[..], argv[argi], mem[..], sp, w);
    argv[argi] := STACK_PAGE + sp;
    StringsStay(mem0, mem[..], argv0, argv[..], cmd, runs, argi + 1);
    OneMore(mem[..], argv[..], cmd, runs, argi);
    FewerWords(buf[..], argv0, argv[..], cmd, runs, argi);
    inPage := true;
  }

  lemma WordNotNul(cmd: Bytes, r: Run)
    requires CommandLine(cmd) && r.start <= r.end <= |cmd|
    ensures forall k | 0 <= k < |Word(cmd, r)| :: Word(cmd, r)[k] != 0
  {
  }

  lemma CopiedString(buf: seq<nat>, from: nat, mem: seq<nat>, to: nat, w: Bytes)
    requires StringAt(buf, from, w) && to + |w| + 1 <= |mem|
             && forall k | to <= k < to + |w| + 1 :: mem[k] == buf[from + (k - to)]
    ensures StringAt(mem, to, w)
  {
    forall k | 0 <= k < |w| ensures mem[to + k] == w[k] {
      assert mem[to + k] == buf[from + (to + k - to)];
    }
  }

  lemma OneMore(mem: seq<nat>, argv: seq<nat>, cmd: Bytes, runs: seq<Run>, i: nat)
    requires RunsIn(cmd, runs) && |mem| == 4096 && i < |runs| && StringsOn(mem, argv, cmd, runs, i + 1)
    requires Place(runs, i) >= 0 && argv[i] == STACK_PAGE + Place(runs, i)
             && StringAt(mem, Place(runs, i), Word(cmd, runs[i]))
    ensures StringsOn(mem, argv, cmd, runs, i)
  {
  }

  lemma FewerWords(buf: seq<nat>, argv: seq<nat>, argv': seq<nat>, cmd: Bytes, runs: seq<Run>, n: nat)
    requires RunsIn(cmd, runs) && WordsIn(buf, argv, cmd, runs, n + 1) && |argv'| == |argv|
             && forall j | 0 <= j < n :: argv'[j] == argv[j]
    ensures WordsIn(buf, argv', cmd, runs, n)
  {
  }

  /** The i-th word of the array at offset base. */
  ghost function Pointer(mem: seq<nat>, base: nat, i: nat): nat
    requires base + 8 * i + 8 <= |mem|
  {
    FromBytes(mem[base + 8 * i..base + 8 * i + 8])
  }

  /** Pointers n.. of argv stand in memory, the array starting at offset base, and a NULL after them. */
  ghost predicate PointersOn(mem: seq<nat>, argv: seq<nat>, argc: nat, base: nat, n: nat) {
    && argc <= |argv| && base + 8 * argc + 8 <= |mem|
    && Pointer(mem, base, argc) == 0
    && forall j {:trigger Pointer(mem, base, j)} | n <= j < argc :: Pointer(mem, base, j) == argv[j]
  }

  lemma PointersStay(mem: seq<nat>, mem': seq<nat>, argv: seq<nat>, argc: nat, base: nat, n: nat)
    requires PointersOn(mem, argv, argc, base, n) && |mem'| == |mem| && n <= argc
             && forall k | base + 8 * n <= k < |mem| :: mem'[k] == mem[k]
    ensures PointersOn(mem', argv, argc, base, n)
  {
    forall j | n <= j <= argc ensures Pointer(mem', base, j) == Pointer(mem, base, j) {
      assert mem'[base + 8 * j..base + 8 * j + 8] == mem[base + 8 * j..base + 8 * j + 8];
    }
  }

  /** memset of 8 bytes to 0. */
  method ClearWord(mem: array<nat>, at: nat)
    requires at + 8 <= mem.Length
    modifies mem
    ensures FromBytes(mem[at..at + 8]) == 0
    ensures forall k | 0 <= k < mem.Length && !(at <= k < at + 8) :: mem[k] == old(mem[k])
  {
    var i := 0;
    while i < 8
      invariant 0 <= i <= 8 && forall k | at <= k < at + i :: mem[k] == 0
      invariant forall k | 0 <= k < mem.Length && !(at <= k < at + 8) :: mem[k] == old(mem[k])
    {
      mem[at + i] := 0;
      i := i + 1;
    }
    ZeroWord(mem[at..at + 8]);
  }

  /** The NULL and the pointers, from the last to the first, as long as they stay in the page. */
  method PushPointers(mem: array<nat>, argv: array<nat>, argc: nat, top: nat) returns (inPage: bool, sp: nat)
    requires mem.Length == 4096 && argv != mem && argc <= argv.Length && top <= 4096
    requires forall j | 0 <= j < argc :: argv[j] < 0x1_0000_0000_0000_0000
    modifies mem
    ensures inPage <==> 8 * (argc + 1) <= top
    ensures inPage ==> sp == top - 8 * (argc + 1) && PointersOn(mem[..], argv[..], argc, sp, 0)
    ensures forall k | top <= k < 4096 :: mem[k] == old(mem[k])
  {
    if top < 8 {
      return false, 0;
    }
    sp := top - 8;
    ClearWord(mem, sp);
    ghost var base := top - 8 * (argc + 1);
    var n: int := argc - 1;
    if base >= 0 {
      assert mem[..][base + 8 * argc..base + 8 * argc + 8] == mem[sp..sp + 8];
      assert Pointer(mem[..], base, argc) == 0;
    }
    while n >= 0
      invariant -1 <= n < argc && sp == base + 8 * (n + 1)
      invariant base >= 0 ==> PointersOn(mem[..], argv[..], argc, base, n + 1)
      invariant forall k | top <= k < 4096 :: mem[k] == old(mem[k])
    {
      if sp < 8 {
        return false, 0;
      }
      ghost var mem0 := mem[..];
      sp := sp - 8;
      StoreWord(mem, sp, argv[n]);
      if base >= 0 {
        OnePointer(mem0, mem[..], argv[..], argc, base, n);
      }
      n := n - 1;
    }
    inPage := true;
  }

  lemma OnePointer(mem: seq<nat>, mem': seq<nat>, argv: seq<nat>, argc: nat, base: nat, n: nat)
    requires n < argc && PointersOn(mem, argv, argc, base, n + 1) && |mem'| == |mem|
    requires Pointer(mem', base, n) == argv[n] && forall k | base + 8 * (n + 1) <= k < |mem| :: mem'[k] == mem[k]
    ensures PointersOn(mem', argv, argc, base, n)
  {
    PointersStay(mem, mem', argv, argc, base, n + 1);
  }

  /** The i-th pointer of the array at offset base points past the array, to a copy of the i-th word. */
  ghost predicate ArgumentAt(mem: seq<nat>, base: nat, cmd: Bytes, runs: seq<Run>, i: nat)
    requires RunsIn(cmd, runs) && i < |runs| && base + 8 * (|runs| + 1) <= |mem|
  {
    var p := Pointer(mem, base, i);
    && STACK_PAGE + base + 8 * (|runs| + 1) <= p && p + |Word(cmd, runs[i])| < USER_STACK
    && CString(mem, p - STACK_PAGE) == Word(cmd, runs[i])
    && p + |Word(cmd, runs[i])| + 1 == if i + 1 < |runs| then Pointer(mem, base, i + 1) else USER_STACK
  }

  /** What the program finds: rsi is the 8-aligned address of argc pointers and a NULL; the i-th points to the
      i-th word; the strings lie above the array, one right behind the other up to the top of the stack, and less
      than 8 bytes are left between them and the array. */
  ghost predicate ArgumentsAt(mem: seq<nat>, rsi: nat, cmd: Bytes, runs: seq<Run>)
    requires RunsIn(cmd, runs)
  {
    && |mem| == 4096 && rsi % 8 == 0 && STACK_PAGE <= rsi && rsi + 8 * (|runs| + 1) <= USER_STACK
    && Pointer(mem, rsi - STACK_PAGE, |runs|) == 0
    && (|runs| > 0 ==> Pointer(mem, rsi - STACK_PAGE, 0) < rsi + 8 * (|runs| + 1) + 8)
    && forall i {:trigger runs[i]} | 0 <= i < |runs| :: ArgumentAt(mem, rsi - STACK_PAGE, cmd, runs, i)
  }

  /** The return address under the array is NULL. */
  ghost predicate ReturnAddressAt(mem: seq<nat>, rsp: nat) {
    && |mem| == 4096 && STACK_PAGE <= rsp && rsp + 8 <= USER_STACK
    && FromBytes(mem[rsp - STACK_PAGE..rsp - STACK_PAGE + 8]) == 0
  }

  lemma ArgumentsLaidOut(mem: seq<nat>, argv: seq<nat>, cmd: Bytes, runs: seq<Run>, sp: nat)
    requires RunsIn(cmd, runs) && CommandLine(cmd) && |mem| == 4096 && StringsOn(mem, argv, cmd, runs, 0)
    requires PointersOn(mem, argv, |runs|, sp, 0) && sp % 8 == 0
             && sp + 8 * (|runs| + 1) <= Place(runs, 0) < sp + 8 * (|runs| + 1) + 8
    ensures ArgumentsAt(mem, STACK_PAGE + sp, cmd, runs)
  {
    forall i | 0 <= i < |runs| ensures Pointer(mem, sp, i) == STACK_PAGE + Place(runs, i) {
      assert Pointer(mem, sp, i) == argv[i];
    }
    forall i | 0 <= i < |runs| ensures ArgumentAt(mem, sp, cmd, runs, i) {
      RoomShrinks(runs, 0, i);
      WordNotNul(cmd, runs[i]);
      ReadString(mem, Place(runs, i), Word(cmd, runs[i]));
    }
    AlignedAddress(sp);
  }

  lemma AlignedAddress(sp: nat)
    requires sp % 8 == 0
    ensures (STACK_PAGE + sp) % 8 == 0
  {
  }

  /** load as far as arguments go: splits the command line, opens and loads the program that the first word names
      (loads tells which names lead to an executable that can be opened and loaded and get a stack page), and lays
      the words out; then reading memory back from rsi gives the words. The code does not check that they fit the
      stack page; when they do not, inPage is false and the run ends before the first store below the page. */
  method LoadArguments(mem: array<nat>, cmd: Bytes, loads: Bytes -> bool)
    returns (ok: bool, inPage: bool, rdi: nat, rsi: nat, rsp: nat)
    requires mem.Length == 4096 && CommandLine(cmd) && |cmd| < 4096
    modifies mem
    ensures var runs := Runs(cmd, SPACES, 0);
            ok <==> 0 < |runs| <= 64 && loads(Word(cmd, runs[0]))
    ensures ok ==> (inPage <==> FitsPage(cmd, Runs(cmd, SPACES, 0)))
    ensures ok && inPage ==> rdi == |Runs(cmd, SPACES, 0)| && ArgumentsAt(mem[..], rsi, cmd, Runs(cmd, SPACES, 0))
    ensures ok && inPage ==> rsi == rsp + 8 && ReturnAddressAt(mem[..], rsp)
  {
    ghost var runs := Runs(cmd, SPACES, 0);
    inPage, rdi, rsi, rsp := true, 0, 0, 0;
    var buf := new nat[|cmd| + 1](i => if 0 <= i < |cmd| then cmd[i] else 0);
    var argv := new nat[64];
    var argc;
    ok, argc := Tokenise(buf, argv, cmd);
    if !ok || argc == 0 {
      return false, true, 0, 0, 0;
    }
    FoundWords(buf[..], argv[..], cmd, runs);
    FirstWord(buf[..], argv[..], cmd, runs);
    if !loads(CString(buf[..], argv[0])) {
      return false, true, 0, 0, 0;
    }
    rdi := argc;
    inPage, rsi, rsp := LayOut(mem, buf, argv, argc, cmd, runs);
  }

  /** argv[0] is the first word as filesys_open reads it. */
  lemma FirstWord(buf: seq<nat>, argv: seq<nat>, cmd: Bytes, runs: seq<Run>)
    requires RunsIn(cmd, runs) && |runs| > 0 && WordsIn(buf, argv, cmd, runs, |runs|)
    ensures CString(buf, argv[0]) == Word(cmd, runs[0])
  {
    WordNotNul(cmd, runs[0]);
    ReadString(buf, argv[0], Word(cmd, runs[0]));
  }

  /** The strings, the alignment, the pointers and the return address, as long as they stay in the page. */
  method LayOut(mem: array<nat>, buf: array<nat>, argv: array<nat>, argc: nat, ghost cmd: Bytes, ghost runs: seq<Run>)
    returns (inPage: bool, rsi: nat, rsp: nat)
    requires mem.Length == 4096 && mem != buf && argv != buf && argv != mem && argc == |runs|
    requires RunsIn(cmd, runs) && WordsIn(buf[..], argv[..], cmd, runs, argc)
    modifies mem, argv
    ensures inPage <==> FitsPage(cmd, runs)
    ensures inPage ==> ArgumentsAt(mem[..], rsi, cmd, runs) && rsi == rsp + 8 && ReturnAddressAt(mem[..], rsp)
  {
    var sp;
    inPage, sp := PushStrings(mem, buf, argv, argc, cmd, runs);
    if !inPage {
      return false, 0, 0;
    }
    ghost var mem0 := mem[..];
    StackAddresses(mem0, argv[..], cmd, runs);
    var top := AlignDown(sp);
    inPage, sp := PushPointers(mem, argv, argc, top);
    if !inPage || sp < 8 {
      return false, 0, 0;
    }
    ghost var mem1 := mem[..];
    rsi := STACK_PAGE + sp;
    ClearWord(mem, sp - 8);
    rsp := rsi - 8;
    assert mem[..][sp - 8..sp] == mem[sp - 8..sp];
    AllLaidOut(mem0, mem1, mem[..], argv[..], cmd, runs, sp);
  }

  /** The pointers below the strings, and the return address below the pointers, keep what is above. */
  lemma AllLaidOut(mem0: seq<nat>, mem1: seq<nat>, mem2: seq<nat>, argv: seq<nat>, cmd: Bytes, runs: seq<Run>, sp: nat)
    requires RunsIn(cmd, runs) && CommandLine(cmd) && |mem0| == |mem1| == |mem2| == 4096
             && StringsOn(mem0, argv, cmd, runs, 0)
    requires Place(runs, 0) >= 0 && 8 <= sp == AlignDown(Place(runs, 0)) - 8 * (|runs| + 1)
    requires PointersOn(mem1, argv, |runs|, sp, 0)
             && forall k | AlignDown(Place(runs, 0)) <= k < 4096 :: mem1[k] == mem0[k]
    requires FromBytes(mem2[sp - 8..sp]) == 0 && forall k | sp <= k < 4096 :: mem2[k] == mem1[k]
    ensures ArgumentsAt(mem2, STACK_PAGE + sp, cmd, runs) && ReturnAddressAt(mem2, STACK_PAGE + sp - 8)
  {
    StringsStay(mem0, mem2, argv, argv, cmd, runs, 0);
    PointersStay(mem1, mem2, argv, |runs|, sp, 0);
    ArgumentsLaidOut(mem2, argv, cmd, runs, sp);
  }

  lemma FoundWords(buf: seq<nat>, argv: seq<nat>, cmd: Bytes, runs: seq<Run>)
    requires Found(buf, argv, cmd, runs, |runs|, |cmd|) && RunsIn(cmd, runs) && CommandLine(cmd)
    ensures WordsIn(buf, argv, cmd, runs, |runs|)
  {
    forall j | 0 <= j < |runs| ensures StringAt(buf, argv[j], Word(cmd, runs[j])) {
      var r := runs[j];
      assert WordAt(buf, cmd, r);
      forall k | 0 <= k < r.end - r.start ensures buf[r.start + k] == Word(cmd, r)[k] {
        assert buf[r.start..r.end][k] == cmd[r.start..r.end][k];
      }
    }
  }

  lemma StackAddresses(mem: seq<nat>, argv: seq<nat>, cmd: Bytes, runs: seq<Run>)
    requires RunsIn(cmd, runs) && |mem| == 4096 && StringsOn(mem, argv, cmd, runs, 0)
    ensures forall j | 0 <= j < |runs| :: argv[j] < 0x1_0000_0000_0000_0000
  {
    forall j | 0 <= j < |runs| ensures argv[j] < 0x1_0000_0000_0000_0000 {
      assert argv[j] == STACK_PAGE + Place(runs, j);
    }
  }
}
