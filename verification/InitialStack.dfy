/**
 * The initial user stack of a new process (osl/src/spawn.rs): a cursor moves
 * down the stack memory, writing strings and then words.  The result is read
 * back as section 3.4.1 of the System V AMD64 ABI prescribes for process entry.
 */
module InitialStack {
  import opened Base
  import opened Bits
  import opened Bytes
  import opened Pages
  import Elf

  const AT_NULL: nat := 0
  const AT_PHDR: nat := 3
  const AT_PHENT: nat := 4
  const AT_PHNUM: nat := 5
  const AT_PAGESZ: nat := 6
  const AT_ENTRY: nat := 9
  const AT_UID: nat := 11
  const AT_RANDOM: nat := 25

  /** What the loader knows about the program. */
  type ElfInfo = Elf.ElfInfo

  predicate Words64(info: ElfInfo) {
    info.entry < U64 && info.phdr < U64 && info.phentsize < U64 && info.phnum < U64
  }

  // ---- reading a process's entry stack ----

  function ReadWord(mem: seq<Byte>, i: nat): nat {
    if i + 8 <= |mem| then FromLE(mem[i..i + 8]) else 0
  }

  /** The words from `i` up to the first null. */
  function ReadVector(mem: seq<Byte>, i: nat): seq<nat>
    decreases |mem| - i
  {
    if i + 8 > |mem| || ReadWord(mem, i) == 0 then [] else [ReadWord(mem, i)] + ReadVector(mem, i + 8)
  }

  /** The (type, value) pairs from `i` up to AT_NULL. */
  function ReadAuxv(mem: seq<Byte>, i: nat): seq<(nat, nat)>
    decreases |mem| - i
  {
    if i + 16 > |mem| || ReadWord(mem, i) == AT_NULL then []
    else [(ReadWord(mem, i), ReadWord(mem, i + 8))] + ReadAuxv(mem, i + 16)
  }

  function CString(mem: seq<Byte>, i: nat): seq<Byte>
    decreases |mem| - i
  {
    if i >= |mem| || mem[i] == 0 then [] else [mem[i]] + CString(mem, i + 1)
  }

  function StringsAt(mem: seq<Byte>, rsp: nat, pointers: seq<nat>): (r: seq<seq<Byte>>)
    ensures |r| == |pointers|
    ensures forall j | 0 <= j < |r| :: r[j] == CString(mem, if pointers[j] >= rsp then pointers[j] - rsp else 0)
  {
    seq(|pointers|, j requires 0 <= j < |pointers| =>
      CString(mem, if pointers[j] >= rsp then pointers[j] - rsp else 0))
  }

  function ArgPointers(mem: seq<Byte>, argc: nat): (r: seq<nat>)
    ensures |r| == argc && forall j | 0 <= j < argc :: r[j] == ReadWord(mem, 8 + 8 * j)
  {
    seq(argc, j requires 0 <= j => ReadWord(mem, 8 + 8 * j))
  }

  datatype Startup = Startup(
    argc: nat,
    argv: seq<seq<Byte>>,
    argvEnds: bool,
    envp: seq<seq<Byte>>,
    auxv: seq<(nat, nat)>)

  /** `mem` is what lies at `rsp` and above. */
  function ReadStack(mem: seq<Byte>, rsp: nat): Startup {
    var argc := ReadWord(mem, 0);
    var argv := ArgPointers(mem, argc);
    var envp := ReadVector(mem, 16 + 8 * argc);
    var auxv := ReadAuxv(mem, 16 + 8 * argc + 8 * |envp| + 8);
    Startup(argc, StringsAt(mem, rsp, argv), ReadWord(mem, 8 + 8 * argc) == 0, StringsAt(mem, rsp, envp), auxv)
  }

  // ---- what the builder writes ----

  predicate NulFree(s: seq<Byte>) {
    forall i | 0 <= i < |s| :: s[i] != 0
  }

  /** The strings as they end up in memory: each one below the one before it. */
  function Strings(all: seq<seq<Byte>>): seq<Byte> {
    if all == [] then [] else all[|all| - 1] + [0] + Strings(all[..|all| - 1])
  }

  /** The user address of string `j`, counted down from the top of the stack. */
  function StringAddr(all: seq<seq<Byte>>, userTop: nat, j: nat): int
    requires j < |all|
  {
    userTop - |Strings(all[..j + 1])|
  }

  function RandomBytes(): (r: seq<Byte>)
    ensures |r| == 16
  {
    seq(16, i requires 0 <= i => (i * 7 + 0x42) % 256)
  }

  function WordBytes(words: seq<nat>): (r: seq<Byte>)
    ensures |r| == 8 * |words|
  {
    if words == [] then [] else LE(words[0], 8) + WordBytes(words[1..])
  }

  function AuxWords(info: ElfInfo, random: nat): seq<nat> {
    [AT_UID, 0, AT_PAGESZ, PAGE_SIZE, AT_PHDR, info.phdr, AT_PHENT, info.phentsize, AT_PHNUM, info.phnum,
     AT_ENTRY, info.entry, AT_RANDOM, random, AT_NULL, 0]
  }

  /** The four highest pairs of the auxiliary vector. */
  function UpperAux(info: ElfInfo, random: nat): seq<nat> {
    [AT_PHNUM, info.phnum, AT_ENTRY, info.entry, AT_RANDOM, random, AT_NULL, 0]
  }

  function AuxPairs(info: ElfInfo, random: nat): seq<(nat, nat)> {
    [(AT_UID, 0), (AT_PAGESZ, PAGE_SIZE), (AT_PHDR, info.phdr), (AT_PHENT, info.phentsize), (AT_PHNUM, info.phnum),
     (AT_ENTRY, info.entry), (AT_RANDOM, random)]
  }

  /** The keys of the System V ABI and their values: the header table, the page size, the entry point and the random bytes. */
  lemma AuxValues(info: ElfInfo, random: nat)
    ensures var pairs := AuxPairs(info, random);
            && (3, info.phdr) in pairs && (4, info.phentsize) in pairs && (5, info.phnum) in pairs && (6, 4096) in pairs
            && (9, info.entry) in pairs && (11, 0) in pairs && (25, random) in pairs && |pairs| == 7
  {
    var pairs := AuxPairs(info, random);
    assert pairs[2] == (3, info.phdr) && pairs[3] == (4, info.phentsize) && pairs[4] == (5, info.phnum);
    assert pairs[1] == (6, 4096) && pairs[5] == (9, info.entry) && pairs[0] == (11, 0) && pairs[6] == (25, random);
  }

  /** All words from RSP upwards. */
  function StartWords(argv: seq<nat>, envp: seq<nat>, aux: seq<nat>): seq<nat> {
    [|argv|] + argv + [0] + envp + [0] + aux
  }

  // ---- reading words back ----

  lemma {:induction false} WordBytesAt(words: seq<nat>, i: nat)
    requires i < |words|
    ensures WordBytes(words)[8 * i..8 * i + 8] == LE(words[i], 8)
  {
    if i > 0 {
      WordBytesAt(words[1..], i - 1);
      assert WordBytes(words)[8 * i..8 * i + 8] == WordBytes(words[1..])[8 * (i - 1)..8 * (i - 1) + 8];
    }
  }

  lemma SliceOfFront(a: seq<Byte>, b: seq<Byte>, i: nat, j: nat)
    requires i <= j <= |a|
    ensures (a + b)[i..j] == a[i..j]
  {
  }

  lemma WordReadsBack(words: seq<nat>, rest: seq<Byte>, i: nat)
    requires i < |words| && words[i] < U64
    ensures ReadWord(WordBytes(words) + rest, 8 * i) == words[i]
  {
    hide WordBytes, LE, FromLE;
    WordBytesAt(words, i);
    Word64(words[i]);
    SliceOfFront(WordBytes(words), rest, 8 * i, 8 * i + 8);
  }

  /** A null-terminated run of words reads back as itself. */
  lemma {:induction false} VectorReadsBack(words: seq<nat>, rest: seq<Byte>, i: nat, n: nat)
    requires i + n < |words| && words[i + n] == 0
    requires forall j | i <= j < i + n :: 0 < words[j] < U64
    ensures ReadVector(WordBytes(words) + rest, 8 * i) == words[i..i + n]
    decreases n
  {
    hide WordBytes, ReadWord;
    WordReadsBack(words, rest, i);
    if n > 0 {
      VectorReadsBack(words, rest, i + 1, n - 1);
      assert words[i..i + n] == [words[i]] + words[i + 1..i + n];
    }
  }

  lemma AuxReadsBack(words: seq<nat>, rest: seq<Byte>, i: nat, info: ElfInfo, random: nat)
    requires i + 16 == |words| && words[i..] == AuxWords(info, random) && Words64(info) && random < U64
    ensures ReadAuxv(WordBytes(words) + rest, 8 * i) == AuxPairs(info, random)
  {
    AuxFrom(words, rest, i, 0, info, random);
  }

  lemma {:induction false} AuxFrom(words: seq<nat>, rest: seq<Byte>, i: nat, p: nat, info: ElfInfo, random: nat)
    requires i + 16 == |words| && words[i..] == AuxWords(info, random) && Words64(info) && random < U64 && p <= 7
    ensures ReadAuxv(WordBytes(words) + rest, 8 * (i + 2 * p)) == AuxPairs(info, random)[p..]
    decreases 7 - p
  {
    hide WordBytes, ReadWord, ReadAuxv;
    AuxPair(words, rest, i, p, info, random);
    if p < 7 {
      AuxFrom(words, rest, i, p + 1, info, random);
      assert AuxPairs(info, random)[p..] == [AuxPairs(info, random)[p]] + AuxPairs(info, random)[p + 1..];
    }
  }

  /** One step of the reader over the auxiliary vector. */
  lemma AuxPair(words: seq<nat>, rest: seq<Byte>, i: nat, p: nat, info: ElfInfo, random: nat)
    requires i + 16 == |words| && words[i..] == AuxWords(info, random) && Words64(info) && random < U64 && p < 8
    ensures var mem := WordBytes(words) + rest;
            ReadAuxv(mem, 8 * (i + 2 * p)) ==
              if p == 7 then [] else [AuxPairs(info, random)[p]] + ReadAuxv(mem, 8 * (i + 2 * (p + 1)))
  {
    hide WordBytes, ReadWord;
    var mem := WordBytes(words) + rest;
    assert words[i + 2 * p] == words[i..][2 * p] && words[i + 2 * p + 1] == words[i..][2 * p + 1];
    WordReadsBack(words, rest, i + 2 * p);
    WordReadsBack(words, rest, i + 2 * p + 1);
    assert 8 * (i + 2 * p) + 8 == 8 * (i + 2 * p + 1);
    assert 8 * (i + 2 * p) + 16 == 8 * (i + 2 * (p + 1));
  }

  // ---- reading strings back ----

  lemma {:induction false} CStringOf(s: seq<Byte>, rest: seq<Byte>, mem: seq<Byte>, i: nat)
    requires NulFree(s) && i <= |mem| && mem[i..] == s + [0] + rest
    ensures CString(mem, i) == s
    decreases |s|
  {
    assert mem[i] == mem[i..][0];
    if s != [] {
      assert mem[i + 1..] == mem[i..][1..] == s[1..] + [0] + rest;
      CStringOf(s[1..], rest, mem, i + 1);
      assert s == [s[0]] + s[1..];
    }
  }

  /** The memory from string `j` upwards is that string, its terminator and the earlier strings. */
  lemma {:induction false} StringsFrom(all: seq<seq<Byte>>, j: nat)
    requires j < |all|
    ensures |Strings(all[..j + 1])| <= |Strings(all)|
    ensures Strings(all)[|Strings(all)| - |Strings(all[..j + 1])|..] == all[j] + [0] + Strings(all[..j])
    decreases |all|
  {
    var last := |all| - 1;
    if j == last {
      assert all[..j + 1] == all;
    } else {
      StringsFrom(all[..last], j);
      assert all[..last][..j + 1] == all[..j + 1] && all[..last][..j] == all[..j];
      var n := |Strings(all[..last])| - |Strings(all[..j + 1])|;
      assert Strings(all)[|all[last]| + 1 + n..] == Strings(all[..last])[n..];
    }
  }

  lemma StringReadsBack(mem: seq<Byte>, below: seq<Byte>, all: seq<seq<Byte>>, userTop: nat, rsp: nat, j: nat)
    requires mem == below + Strings(all) && rsp == userTop - |mem| && j < |all| && NulFree(all[j])
    ensures StringAddr(all, userTop, j) >= rsp
    ensures CString(mem, StringAddr(all, userTop, j) - rsp) == all[j]
  {
    StringsFrom(all, j);
    hide Strings;
    var i := StringAddr(all, userTop, j) - rsp;
    assert mem[i..] == Strings(all)[|Strings(all)| - |Strings(all[..j + 1])|..];
    CStringOf(all[j], Strings(all[..j]), mem, i);
  }

  /** The pointers to strings `from` onwards. */
  predicate Points(pointers: seq<nat>, all: seq<seq<Byte>>, userTop: nat, from: nat) {
    from + |pointers| <= |all| && forall j | 0 <= j < |pointers| :: pointers[j] == StringAddr(all, userTop, from + j)
  }

  lemma PointersReadBack(mem: seq<Byte>, below: seq<Byte>, all: seq<seq<Byte>>, userTop: nat, rsp: nat,
                         pointers: seq<nat>, from: nat)
    requires mem == below + Strings(all) && rsp == userTop - |mem|
    requires Points(pointers, all, userTop, from) && forall s <- all :: NulFree(s)
    ensures StringsAt(mem, rsp, pointers) == all[from..from + |pointers|]
  {
    hide StringAddr, Strings, CString;
    forall j | 0 <= j < |pointers|
      ensures StringsAt(mem, rsp, pointers)[j] == all[from + j]
    {
      assert all[from + j] in all;
      StringReadsBack(mem, below, all, userTop, rsp, from + j);
    }
  }

  // ---- the round trip ----

  lemma StartWordsParts(argv: seq<nat>, envp: seq<nat>, aux: seq<nat>)
    ensures var w := StartWords(argv, envp, aux);
            && |w| == 3 + |argv| + |envp| + |aux|
            && w[0] == |argv| && w[1..1 + |argv|] == argv && w[1 + |argv|] == 0
            && w[2 + |argv|..2 + |argv| + |envp|] == envp && w[2 + |argv| + |envp|] == 0
            && w[3 + |argv| + |envp|..] == aux
  {
  }

  /** The argument pointers, read with the count. */
  lemma ArgumentsReadBack(words: seq<nat>, rest: seq<Byte>, argv: seq<nat>)
    requires |words| > |argv| && words[1..1 + |argv|] == argv && forall p <- argv :: p < U64
    ensures ArgPointers(WordBytes(words) + rest, |argv|) == argv
  {
    hide WordBytes, ReadWord;
    forall j | 0 <= j < |argv|
      ensures ReadWord(WordBytes(words) + rest, 8 + 8 * j) == argv[j]
    {
      assert argv[j] in argv && words[1 + j] == words[1..1 + |argv|][j];
      WordReadsBack(words, rest, 1 + j);
      assert 8 * (1 + j) == 8 + 8 * j;
    }
  }

  /** The count, the argument pointers and their terminator. */
  lemma HeadReadsBack(argv: seq<nat>, envp: seq<nat>, aux: seq<nat>, rest: seq<Byte>)
    requires |argv| < U64 && forall p <- argv :: p < U64
    ensures var mem := WordBytes(StartWords(argv, envp, aux)) + rest;
            && ReadWord(mem, 0) == |argv| && ReadWord(mem, 8 + 8 * |argv|) == 0
            && ArgPointers(mem, |argv|) == argv
  {
    hide WordBytes, ReadWord, StartWords, ArgPointers;
    var words := StartWords(argv, envp, aux);
    StartWordsParts(argv, envp, aux);
    WordReadsBack(words, rest, 0);
    ArgumentsReadBack(words, rest, argv);
    WordReadsBack(words, rest, 1 + |argv|);
    assert 8 * (1 + |argv|) == 8 + 8 * |argv|;
  }

  lemma EnvpReadsBack(argv: seq<nat>, envp: seq<nat>, aux: seq<nat>, rest: seq<Byte>)
    requires forall p <- envp :: 0 < p < U64
    ensures ReadVector(WordBytes(StartWords(argv, envp, aux)) + rest, 16 + 8 * |argv|) == envp
  {
    hide WordBytes, ReadVector, StartWords;
    StartWordsParts(argv, envp, aux);
    EnvironmentReadsBack(StartWords(argv, envp, aux), rest, 2 + |argv|, envp);
    assert 8 * (2 + |argv|) == 16 + 8 * |argv|;
  }

  lemma AuxvReadsBack(argv: seq<nat>, envp: seq<nat>, info: ElfInfo, random: nat, rest: seq<Byte>)
    requires Words64(info) && random < U64
    ensures ReadAuxv(WordBytes(StartWords(argv, envp, AuxWords(info, random))) + rest, 16 + 8 * |argv| + 8 * |envp| + 8)
            == AuxPairs(info, random)
  {
    hide WordBytes, ReadAuxv, StartWords, AuxWords, AuxPairs;
    StartWordsParts(argv, envp, AuxWords(info, random));
    AuxLength(info, random);
    AuxReadsBack(StartWords(argv, envp, AuxWords(info, random)), rest, 3 + |argv| + |envp|, info, random);
    assert 8 * (3 + |argv| + |envp|) == 16 + 8 * |argv| + 8 * |envp| + 8;
  }

  lemma AuxLength(info: ElfInfo, random: nat)
    ensures |AuxWords(info, random)| == 16
  {
  }

  lemma EnvironmentReadsBack(words: seq<nat>, rest: seq<Byte>, i: nat, envp: seq<nat>)
    requires i + |envp| < |words| && words[i..i + |envp|] == envp && words[i + |envp|] == 0
    requires forall p <- envp :: 0 < p < U64
    ensures ReadVector(WordBytes(words) + rest, 8 * i) == envp
  {
    hide WordBytes, ReadVector;
    forall j | i <= j < i + |envp|
      ensures 0 < words[j] < U64
    {
      assert words[j] == words[i..i + |envp|][j - i];
      assert words[j] in envp;
    }
    VectorReadsBack(words, rest, i, |envp|);
  }

  /** Reading the stack gives back the argument count, both string vectors and the auxiliary vector. */
  lemma StackReadsBack(mem: seq<Byte>, rest: seq<Byte>, below: seq<Byte>, userTop: nat, rsp: nat,
                       args: seq<seq<Byte>>, envs: seq<seq<Byte>>, argv: seq<nat>, envp: seq<nat>,
                       info: ElfInfo, random: nat)
    requires mem == WordBytes(StartWords(argv, envp, AuxWords(info, random))) + rest
    requires mem == below + Strings(args + envs) && rsp == userTop - |mem| && 0 < rsp && userTop <= U64
    requires |argv| == |args| && |envp| == |envs| && Words64(info) && random < U64
    requires Points(argv, args + envs, userTop, 0) && Points(envp, args + envs, userTop, |args|)
    requires forall s <- args + envs :: NulFree(s)
    ensures ReadStack(mem, rsp) == Startup(|args|, args, true, envs, AuxPairs(info, random))
  {
    hide WordBytes, ReadWord, ReadVector, ReadAuxv, ArgPointers, Strings, StringsAt, StartWords, Points, AuxWords, AuxPairs, NulFree;
    PointerRange(mem, below, args + envs, userTop, rsp, argv, 0);
    PointerRange(mem, below, args + envs, userTop, rsp, envp, |args|);
    HeadReadsBack(argv, envp, AuxWords(info, random), rest);
    EnvpReadsBack(argv, envp, AuxWords(info, random), rest);
    AuxvReadsBack(argv, envp, info, random, rest);
    StringsReadBack(mem, below, userTop, rsp, args, envs, argv, envp);
  }

  lemma StringsReadBack(mem: seq<Byte>, below: seq<Byte>, userTop: nat, rsp: nat,
                        args: seq<seq<Byte>>, envs: seq<seq<Byte>>, argv: seq<nat>, envp: seq<nat>)
    requires mem == below + Strings(args + envs) && rsp == userTop - |mem|
    requires |argv| == |args| && |envp| == |envs|
    requires Points(argv, args + envs, userTop, 0) && Points(envp, args + envs, userTop, |args|)
    requires forall s <- args + envs :: NulFree(s)
    ensures StringsAt(mem, rsp, argv) == args && StringsAt(mem, rsp, envp) == envs
  {
    hide Strings, StringsAt, Points, NulFree;
    PointersReadBack(mem, below, args + envs, userTop, rsp, argv, 0);
    PointersReadBack(mem, below, args + envs, userTop, rsp, envp, |args|);
    ConcatSlices(args, envs);
  }

  lemma ConcatSlices(a: seq<seq<Byte>>, b: seq<seq<Byte>>)
    ensures (a + b)[0..|a|] == a && (a + b)[|a|..|a| + |b|] == b
  {
  }

  /** String pointers are addresses above RSP, so neither null nor out of range. */
  lemma PointerRange(mem: seq<Byte>, below: seq<Byte>, all: seq<seq<Byte>>, userTop: nat, rsp: nat,
                     pointers: seq<nat>, from: nat)
    requires mem == below + Strings(all) && rsp == userTop - |mem| && 0 < rsp && userTop <= U64
    requires Points(pointers, all, userTop, from) && forall s <- all :: NulFree(s)
    ensures forall p <- pointers :: 0 < p < U64
    ensures |pointers| <= |mem|
  {
    forall p | p in pointers
      ensures 0 < p < U64
    {
      var j :| 0 <= j < |pointers| && pointers[j] == p;
      assert all[from + j] in all;
      StringReadsBack(mem, below, all, userTop, rsp, from + j);
      assert |Strings(all[..from + j + 1])| > 0;
    }
    CountStrings(all);
  }

  lemma {:induction false} CountStrings(all: seq<seq<Byte>>)
    ensures |all| <= |Strings(all)|
  {
    if all != [] { CountStrings(all[..|all| - 1]); }
  }

  // ---- the builder ----

  /** The words pushed below the alignment pad. */
  function Pushes(argc: nat, envc: nat): nat {
    16 + 1 + envc + 1 + argc + 1
  }

  /** The cursor after the strings and the random bytes, aligned down to eight. */
  function WordTop(kernelTop: nat, strings: nat): int {
    var c := kernelTop - strings - 16;
    c - c % 8
  }

  /** RSP would not be 16-byte aligned after pushing everything from `cursor` down. */
  predicate NeedsPad(kernelTop: nat, userTop: nat, cursor: int, argc: nat, envc: nat) {
    (userTop - (kernelTop - (cursor - Pushes(argc, envc) * 8))) % 16 != 0
  }

  /** Where the words end when they start at `cursor`. */
  function WordEnd(kernelTop: nat, userTop: nat, cursor: int, argc: nat, envc: nat): int {
    cursor - (if NeedsPad(kernelTop, userTop, cursor, argc, envc) then 8 else 0) - 8 * Pushes(argc, envc)
  }

  /** Where the cursor ends up; everything fits when this is not below the stack's base. */
  function FinalCursor(kernelTop: nat, userTop: nat, strings: nat, argc: nat, envc: nat): int {
    WordEnd(kernelTop, userTop, WordTop(kernelTop, strings), argc, envc)
  }

  class StackBuilder {
    const base: nat
    const mem: array<Byte>
    var cursor: nat

    ghost predicate Valid()
      reads this
    {
      base <= cursor <= base + mem.Length < U64
    }

    /** What has been written so far: the memory from the cursor to the top. */
    ghost function Tail(): seq<Byte>
      requires Valid()
      reads this, mem
    {
      mem[cursor - base..]
    }

    constructor (kernelBase: nat, size: nat)
      requires kernelBase + size < U64
      ensures Valid() && base == kernelBase && mem.Length == size && fresh(mem) && cursor == base + size
    {
      base := kernelBase;
      mem := new Byte[size];
      cursor := kernelBase + size;
    }

    method WriteBytes(bytes: seq<Byte>)
      requires Valid() && cursor >= base + |bytes|
      modifies this`cursor, mem
      ensures Valid() && cursor == old(cursor) - |bytes| && Tail() == bytes + old(Tail())
    {
      ghost var tail := Tail();
      cursor := cursor - |bytes|;
      var at := cursor - base;
      for i := 0 to |bytes|
        invariant cursor == old(cursor) - |bytes|
        invariant forall j | 0 <= j < i :: mem[at + j] == bytes[j]
        invariant forall k | at + |bytes| <= k < mem.Length :: mem[k] == tail[k - at - |bytes|]
      {
        mem[at + i] := bytes[i];
      }
      assert mem[at..] == bytes + tail;
    }

    method Push(value: nat)
      requires Valid() && cursor >= base + 8 && value < U64
      modifies this`cursor, mem
      ensures Valid() && cursor == old(cursor) - 8 && Tail() == LE(value, 8) + old(Tail())
    {
      WriteBytes(LE(value, 8));
    }

    /** One loop over strings; `done` are the strings written before it. */
    method PushStrings(strings: seq<seq<Byte>>, userTop: nat, ghost done: seq<seq<Byte>>)
      returns (addrs: seq<nat>)
      requires Valid() && Tail() == Strings(done) && mem.Length <= userTop
      requires |Strings(done + strings)| <= mem.Length
      modifies this`cursor, mem
      ensures Valid() && Tail() == Strings(done + strings)
      ensures |addrs| == |strings| && Points(addrs, done + strings, userTop, |done|)
    {
      hide Strings;
      var kernelTop := base + mem.Length;
      addrs := [];
      assert done + strings[..0] == done;
      for i := 0 to |strings|
        invariant Valid() && Tail() == Strings(done + strings[..i]) && |addrs| == i
        invariant forall j | 0 <= j < i :: addrs[j] == StringAddr(done + strings, userTop, |done| + j)
      {
        StringsGrow(done, strings, i);
        WriteBytes(strings[i] + [0]);
        assert (done + strings)[..|done| + i + 1] == done + strings[..i + 1];
        addrs := addrs + [userTop - (kernelTop - cursor)];
      }
      assert strings[..|strings|] == strings;
    }

    /** `cursor &= !7`; what is skipped is left as it was. */
    method AlignCursor() returns (ghost gap: seq<Byte>)
      requires Valid() && base % 8 == 0
      modifies this`cursor
      ensures Valid() && cursor == old(cursor) - old(cursor) % 8
      ensures Tail() == gap + old(Tail())
    {
      RoundDown8(cursor);
      FloorAbove(base, cursor);
      hide And;
      ghost var was := cursor - base;
      cursor := And(cursor, Not64(7));
      gap := mem[cursor - base..was];
    }

    /** The bytes AT_RANDOM points to. */
    method PushRandom(userTop: nat) returns (random: nat)
      requires Valid() && cursor >= base + 16 && mem.Length <= userTop
      modifies this`cursor, mem
      ensures Valid() && cursor == old(cursor) - 16 && Tail() == RandomBytes() + old(Tail())
      ensures random == userTop - |Tail()|
    {
      var bytes: seq<Byte> := [];
      for i := 0 to 16
        invariant |bytes| == i && forall j | 0 <= j < i :: bytes[j] == (j * 7 + 0x42) % 256
      {
        bytes := bytes + [(i * 7 + 0x42) % 256];
      }
      assert bytes == RandomBytes();
      WriteBytes(bytes);
      random := userTop - (base + mem.Length - cursor);
    }

    /** The argument strings, then the environment strings below them. */
    method PushAllStrings(userTop: nat, argv: seq<seq<Byte>>, envp: seq<seq<Byte>>)
      returns (argvAddrs: seq<nat>, envpAddrs: seq<nat>)
      requires Valid() && cursor == base + mem.Length && mem.Length <= userTop
      requires |Strings(argv + envp)| <= mem.Length
      modifies this`cursor, mem
      ensures Valid() && Tail() == Strings(argv + envp)
      ensures |argvAddrs| == |argv| && Points(argvAddrs, argv + envp, userTop, 0)
      ensures |envpAddrs| == |envp| && Points(envpAddrs, argv + envp, userTop, |argv|)
    {
      NoStrings();
      hide Strings, Points;
      StringsPrefix(argv, envp);
      assert [] + argv == argv;
      argvAddrs := PushStrings(argv, userTop, []);
      PointsPrefix(argvAddrs, argv, envp, userTop);
      envpAddrs := PushStrings(envp, userTop, argv);
    }

    /** Push `pointers` from the last to the first. */
    method PushPointers(pointers: seq<nat>, ghost words: seq<nat>, ghost rest: seq<Byte>)
      requires Valid() && Tail() == WordBytes(words) + rest && cursor >= base + 8 * |pointers|
      requires forall p <- pointers :: p < U64
      modifies this`cursor, mem
      ensures Valid() && Tail() == WordBytes(pointers + words) + rest && cursor == old(cursor) - 8 * |pointers|
    {
      hide WordBytes, LE;
      assert pointers[|pointers|..] + words == words;
      var i := |pointers|;
      while i > 0
        invariant 0 <= i <= |pointers| && Valid() && cursor == old(cursor) - 8 * (|pointers| - i)
        invariant Tail() == WordBytes(pointers[i..] + words) + rest
      {
        i := i - 1;
        assert pointers[i] in pointers;
        PushWord(pointers[i], pointers[i + 1..] + words, rest);
        FrontPointer(pointers, i, words);
      }
      assert pointers[0..] == pointers;
    }

    method PushWord(value: nat, ghost words: seq<nat>, ghost rest: seq<Byte>)
      requires Valid() && Tail() == WordBytes(words) + rest && cursor >= base + 8 && value < U64
      modifies this`cursor, mem
      ensures Valid() && Tail() == WordBytes([value] + words) + rest && cursor == old(cursor) - 8
    {
      PrependWord(value, words, rest);
      Push(value);
    }

    /** The auxiliary vector, pushed from AT_NULL down. */
    method PushAuxv(info: ElfInfo, random: nat, ghost rest: seq<Byte>)
      requires Valid() && Tail() == rest && cursor >= base + 128 && Words64(info) && random < U64
      modifies this`cursor, mem
      ensures Valid() && Tail() == WordBytes(AuxWords(info, random)) + rest && cursor == old(cursor) - 128
    {
      hide WordBytes, LE, UpperAux, AuxWords;
      PushUpperAuxv(info, random, rest);
      ghost var w := UpperAux(info, random);
      PushPair(AT_PHENT, info.phentsize, w, rest);
      w := [AT_PHENT, info.phentsize] + w;
      PushPair(AT_PHDR, info.phdr, w, rest);
      w := [AT_PHDR, info.phdr] + w;
      PushPair(AT_PAGESZ, PAGE_SIZE, w, rest);
      w := [AT_PAGESZ, PAGE_SIZE] + w;
      PushPair(AT_UID, 0, w, rest);
      w := [AT_UID, 0] + w;
      AuxWordsAre(info, random);
    }

    method PushUpperAuxv(info: ElfInfo, random: nat, ghost rest: seq<Byte>)
      requires Valid() && Tail() == rest && cursor >= base + 64 && Words64(info) && random < U64
      modifies this`cursor, mem
      ensures Valid() && Tail() == WordBytes(UpperAux(info, random)) + rest && cursor == old(cursor) - 64
    {
      assert WordBytes([]) + rest == rest;
      hide WordBytes, LE;
      ghost var w: seq<nat> := [];
      PushPair(AT_NULL, 0, w, rest);
      w := [AT_NULL, 0] + w;
      PushPair(AT_RANDOM, random, w, rest);
      w := [AT_RANDOM, random] + w;
      PushPair(AT_ENTRY, info.entry, w, rest);
      w := [AT_ENTRY, info.entry] + w;
      PushPair(AT_PHNUM, info.phnum, w, rest);
      w := [AT_PHNUM, info.phnum] + w;
      assert w == UpperAux(info, random);
    }

    /** Everything from the auxiliary vector down to the count. */
    method PushVectors(argv: seq<nat>, envp: seq<nat>, info: ElfInfo, random: nat, ghost rest: seq<Byte>)
      requires Valid() && Tail() == rest && cursor >= base + 8 * Pushes(|argv|, |envp|)
      requires Words64(info) && random < U64 && |argv| < U64
      requires (forall p <- argv :: p < U64) && forall p <- envp :: p < U64
      modifies this`cursor, mem
      ensures Valid() && cursor == old(cursor) - 8 * Pushes(|argv|, |envp|)
      ensures Tail() == WordBytes(StartWords(argv, envp, AuxWords(info, random))) + rest
    {
      hide WordBytes, LE, AuxWords, StartWords;
      PushAuxv(info, random, rest);
      ghost var w := AuxWords(info, random);
      PushWord(0, w, rest);
      w := [0] + w;
      PushPointers(envp, w, rest);
      w := envp + w;
      PushWord(0, w, rest);
      w := [0] + w;
      PushPointers(argv, w, rest);
      w := argv + w;
      PushWord(|argv|, w, rest);
      w := [|argv|] + w;
      StartWordsIs(argv, envp, AuxWords(info, random));
    }

    /** One word of padding above the auxiliary vector when RSP would not be aligned without it. */
    method PushPad(userTop: nat, argc: nat, envc: nat, ghost rest: seq<Byte>) returns (ghost pad: seq<Byte>)
      requires Valid() && Tail() == rest && cursor >= base + 8
      modifies this`cursor, mem
      ensures Valid() && Tail() == pad + rest
      ensures cursor == old(cursor) - (if NeedsPad(base + mem.Length, userTop, old(cursor), argc, envc) then 8 else 0)
    {
      hide LE;
      var kernelTop := base + mem.Length;
      var totalPushes := 16 + 1 + envc + 1 + argc + 1;
      var prospectiveRsp := userTop - (kernelTop - (cursor - totalPushes * 8));
      pad := [];
      if prospectiveRsp % 16 != 0 {
        Push(0);
        pad := LE(0, 8);
      }
    }

    method PushPair(kind: nat, value: nat, ghost words: seq<nat>, ghost rest: seq<Byte>)
      requires Valid() && Tail() == WordBytes(words) + rest && cursor >= base + 16 && kind < U64 && value < U64
      modifies this`cursor, mem
      ensures Valid() && Tail() == WordBytes([kind, value] + words) + rest && cursor == old(cursor) - 16
    {
      PushWord(value, words, rest);
      PushWord(kind, [value] + words, rest);
      assert [kind] + ([value] + words) == [kind, value] + words;
    }

    /** The strings, then the sixteen bytes AT_RANDOM points to, then the cursor aligned. */
    method PushData(userTop: nat, argv: seq<seq<Byte>>, envp: seq<seq<Byte>>)
      returns (argvAddrs: seq<nat>, envpAddrs: seq<nat>, random: nat, ghost gap: seq<Byte>)
      requires Valid() && base % 8 == 0 && cursor == base + mem.Length && mem.Length <= userTop < U64
      requires WordTop(cursor, |Strings(argv + envp)|) >= base
      modifies this`cursor, mem
      ensures Valid() && cursor == WordTop(base + mem.Length, |Strings(argv + envp)|)
      ensures Tail() == gap + RandomBytes() + Strings(argv + envp)
      ensures |argvAddrs| == |argv| && Points(argvAddrs, argv + envp, userTop, 0)
      ensures |envpAddrs| == |envp| && Points(envpAddrs, argv + envp, userTop, |argv|)
      ensures random == userTop - |RandomBytes() + Strings(argv + envp)|
    {
      hide Strings, RandomBytes, And, Points;
      argvAddrs, envpAddrs := PushAllStrings(userTop, argv, envp);
      random := PushRandom(userTop);
      ghost var data := Tail();
      gap := AlignCursor();
      assert gap + (RandomBytes() + Strings(argv + envp)) == gap + RandomBytes() + Strings(argv + envp);
    }

    method PushEverything(userTop: nat, info: ElfInfo, argv: seq<seq<Byte>>, envp: seq<seq<Byte>>)
      returns (ghost argvAddrs: seq<nat>, ghost envpAddrs: seq<nat>, ghost random: nat, ghost pad: seq<Byte>)
      requires Valid() && base % 8 == 0 && cursor == base + mem.Length && mem.Length <= userTop < U64 && Words64(info)
      requires FinalCursor(cursor, userTop, |Strings(argv + envp)|, |argv|, |envp|) >= base
      modifies this`cursor, mem
      ensures Valid() && cursor == FinalCursor(base + mem.Length, userTop, |Strings(argv + envp)|, |argv|, |envp|)
      ensures Tail() == WordBytes(StartWords(argvAddrs, envpAddrs, AuxWords(info, random)))
                        + (pad + RandomBytes() + Strings(argv + envp))
      ensures |argvAddrs| == |argv| && Points(argvAddrs, argv + envp, userTop, 0)
      ensures |envpAddrs| == |envp| && Points(envpAddrs, argv + envp, userTop, |argv|)
      ensures random == userTop - |RandomBytes() + Strings(argv + envp)|
    {
      hide Strings, RandomBytes, WordBytes, AuxWords, Points, StartWords, WordTop, NeedsPad, Pushes;
      CursorFits(base, cursor, userTop, |Strings(argv + envp)|, |argv|, |envp|);
      var argvs, envps, rand, gap := PushData(userTop, argv, envp);
      AddrsFit(argvs, argv + envp, userTop, 0);
      AddrsFit(envps, argv + envp, userTop, |argv|);
      var extra := PushPad(userTop, |argv|, |envp|, gap + RandomBytes() + Strings(argv + envp));
      PadJoins(extra, gap, RandomBytes(), Strings(argv + envp));
      pad := extra + gap;
      PushVectors(argvs, envps, info, rand, pad + RandomBytes() + Strings(argv + envp));
      argvAddrs, envpAddrs, random := argvs, envps, rand;
    }
  }

  lemma PadJoins(pad: seq<Byte>, gap: seq<Byte>, random: seq<Byte>, strings: seq<Byte>)
    ensures pad + (gap + random + strings) == (pad + gap) + random + strings
  {
  }

  lemma FrontPointer(pointers: seq<nat>, i: nat, words: seq<nat>)
    requires i < |pointers|
    ensures [pointers[i]] + (pointers[i + 1..] + words) == pointers[i..] + words
  {
  }

  lemma PrependWord(value: nat, words: seq<nat>, rest: seq<Byte>)
    ensures LE(value, 8) + (WordBytes(words) + rest) == WordBytes([value] + words) + rest
  {
    assert ([value] + words)[1..] == words;
  }

  lemma AuxWordsAre(info: ElfInfo, random: nat)
    ensures [AT_UID, 0] + ([AT_PAGESZ, PAGE_SIZE] + ([AT_PHDR, info.phdr] + ([AT_PHENT, info.phentsize] + UpperAux(info, random))))
            == AuxWords(info, random)
  {
  }

  lemma FloorAbove(base: nat, c: nat)
    requires base % 8 == 0 && base <= c
    ensures base <= c - c % 8
  {
  }

  lemma RoundDown8(x: nat)
    requires x < U64
    ensures And(x, Not64(7)) == x - x % 8
  {
    Pow2Values();
    hide And, Pow2;
    MaskRoundsDown(x, 64, 3);
  }

  lemma NoStrings()
    ensures Strings([]) == []
  {
  }

  lemma StringsGrow(done: seq<seq<Byte>>, strings: seq<seq<Byte>>, i: nat)
    requires i < |strings|
    ensures strings[i] + [0] + Strings(done + strings[..i]) == Strings(done + strings[..i + 1])
    ensures |Strings(done + strings[..i + 1])| <= |Strings(done + strings)|
  {
    var all := done + strings[..i + 1];
    assert all[..|all| - 1] == done + strings[..i] && all[|all| - 1] == strings[i];
    assert (done + strings)[..|done| + i + 1] == all;
    StringsFrom(done + strings, |done| + i);
  }

  lemma StringsPrefix(a: seq<seq<Byte>>, b: seq<seq<Byte>>)
    ensures |Strings(a)| <= |Strings(a + b)|
  {
    if a != [] {
      assert (a + b)[..|a|] == a;
      StringsFrom(a + b, |a| - 1);
    }
  }

  lemma PointsPrefix(pointers: seq<nat>, a: seq<seq<Byte>>, b: seq<seq<Byte>>, userTop: nat)
    requires Points(pointers, a, userTop, 0)
    ensures Points(pointers, a + b, userTop, 0)
  {
    forall j | 0 <= j < |pointers|
      ensures pointers[j] == StringAddr(a + b, userTop, 0 + j)
    {
      assert (a + b)[..j + 1] == a[..j + 1];
      assert pointers[j] == StringAddr(a, userTop, 0 + j);
    }
  }

  /** The strings, the vectors and the padding fit between the base and the top of the stack. */
  predicate Fits(base: nat, size: nat, userBase: nat, argv: seq<seq<Byte>>, envp: seq<seq<Byte>>) {
    FinalCursor(base + size, userBase + size, |Strings(argv + envp)|, |argv|, |envp|) >= base
  }

  /**
   * The whole builder.  A reader of the stack finds the arguments, the environment and the
   * auxiliary vector that went in, and RSP is 16-byte aligned, whatever their number and lengths.
   * When they do not fit the unchecked writes leave the stack, which is the outcome None.
   */
  method BuildInitialStack(b: StackBuilder, userBase: nat, info: ElfInfo, argv: seq<seq<Byte>>, envp: seq<seq<Byte>>)
    returns (r: Option<nat>)
    requires b.Valid() && b.cursor == b.base + b.mem.Length && b.base % 8 == 0 && userBase % 8 == 0
    requires 0 < userBase && userBase + b.mem.Length < U64 && Words64(info)
    requires forall s <- argv + envp :: NulFree(s)
    modifies b, b.mem
    ensures r.Some? <==> Fits(b.base, b.mem.Length, userBase, argv, envp)
    ensures r.Some? ==> b.Valid() && r.value == userBase + (b.cursor - b.base) && r.value % 16 == 0
    ensures r.Some? ==> exists random: nat ::
              && ReadStack(b.Tail(), r.value) == Startup(|argv|, argv, true, envp, AuxPairs(info, random))
              && r.value <= random && random - r.value + 16 <= |b.Tail()|
              && b.Tail()[random - r.value..random - r.value + 16] == RandomBytes()
  {
    hide Strings, RandomBytes, WordBytes, ReadStack, AuxPairs, AuxWords, Points, NulFree, StartWords;
    hide FinalCursor;
    if !Fits(b.base, b.mem.Length, userBase, argv, envp) {
      return None;
    }
    var kernelTop, userTop := b.base + b.mem.Length, userBase + b.mem.Length;
    var argvAddrs, envpAddrs, random, pad := b.PushEverything(userTop, info, argv, envp);
    var rsp := userTop - (kernelTop - b.cursor);
    RspAligned(b.base, userBase, b.mem.Length, |Strings(argv + envp)|, |argv|, |envp|);
    ghost var words := StartWords(argvAddrs, envpAddrs, AuxWords(info, random));
    BuiltReadsBack(b.Tail(), words, pad, userTop, rsp, argv, envp, argvAddrs, envpAddrs, info, random);
    r := Some(rsp);
  }

  lemma CursorFits(base: nat, kernelTop: nat, userTop: nat, strings: nat, argc: nat, envc: nat)
    requires FinalCursor(kernelTop, userTop, strings, argc, envc) >= base
    ensures var top := WordTop(kernelTop, strings);
            var pad := if NeedsPad(kernelTop, userTop, top, argc, envc) then 8 else 0;
            top >= base + 8 && top - pad >= base + 8 * Pushes(argc, envc) && Pushes(argc, envc) >= 19 + argc
  {
    hide NeedsPad, WordTop;
  }

  lemma FloorAligned(c: int)
    ensures (c - c % 8) % 8 == 0
  {
  }

  lemma EightsAlign(a: int, b: int, c: int, n: nat)
    requires a % 8 == 0 && b % 8 == 0 && c % 8 == 0
    ensures (a + b - c - 8 * n) % 8 == 0
  {
  }

  lemma HalfAligned(x: int)
    requires x % 8 == 0
    ensures x % 16 != 0 ==> (x - 8) % 16 == 0
  {
  }

  /** The pad makes up exactly for an odd number of words. */
  lemma RspAligned(base: nat, userBase: nat, size: nat, strings: nat, argc: nat, envc: nat)
    requires base % 8 == 0 && userBase % 8 == 0
    ensures (userBase + size - (base + size - FinalCursor(base + size, userBase + size, strings, argc, envc))) % 16 == 0
  {
    hide Pushes, WordTop;
    var top := WordTop(base + size, strings);
    WordTopAligned(base + size, strings);
    EightsAlign(userBase, top, base, Pushes(argc, envc));
    HalfAligned(userBase + top - base - 8 * Pushes(argc, envc));
  }

  lemma WordTopAligned(kernelTop: nat, strings: nat)
    ensures WordTop(kernelTop, strings) % 8 == 0
  {
    FloorAligned(kernelTop - strings - 16);
  }

  lemma AddrsFit(pointers: seq<nat>, all: seq<seq<Byte>>, userTop: nat, from: nat)
    requires Points(pointers, all, userTop, from) && userTop < U64
    ensures forall p <- pointers :: p < U64
  {
  }

  lemma StartWordsIs(argv: seq<nat>, envp: seq<nat>, aux: seq<nat>)
    ensures StartWords(argv, envp, aux) == [|argv|] + (argv + ([0] + (envp + ([0] + aux))))
  {
  }

  lemma BuiltReadsBack(mem: seq<Byte>, words: seq<nat>, pad: seq<Byte>, userTop: nat, rsp: nat,
                       args: seq<seq<Byte>>, envs: seq<seq<Byte>>, argv: seq<nat>, envp: seq<nat>,
                       info: ElfInfo, random: nat)
    requires words == StartWords(argv, envp, AuxWords(info, random))
    requires mem == WordBytes(words) + (pad + RandomBytes() + Strings(args + envs))
    requires rsp == userTop - |mem| && 0 < rsp && userTop <= U64
    requires |argv| == |args| && |envp| == |envs| && Words64(info)
    requires random == userTop - |RandomBytes() + Strings(args + envs)|
    requires Points(argv, args + envs, userTop, 0) && Points(envp, args + envs, userTop, |args|)
    requires forall s <- args + envs :: NulFree(s)
    ensures ReadStack(mem, rsp) == Startup(|args|, args, true, envs, AuxPairs(info, random))
    ensures rsp <= random && random - rsp + 16 <= |mem| && mem[random - rsp..random - rsp + 16] == RandomBytes()
  {
    hide Strings, RandomBytes, WordBytes, ReadStack, AuxPairs, AuxWords, Points, NulFree, StartWords;
    var below := WordBytes(words) + pad + RandomBytes();
    assert mem == below + Strings(args + envs);
    StackReadsBack(mem, pad + RandomBytes() + Strings(args + envs), below, userTop, rsp, args, envs, argv, envp, info, random);
    assert random - rsp == |WordBytes(words) + pad|;
  }

}
