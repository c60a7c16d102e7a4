/** Text as the kernel and the agent handle it: bytes, with zero as the end. */
module CText {
  import opened BigEndian
  import opened Congruence

  // The bytes before the first zero, which strlen counts.
  function CString(s: seq<byte>): (t: seq<byte>)
    ensures |t| <= |s| && t == s[..|t|] && 0 !in t
  {
    if s == [] || s[0] == 0 then [] else [s[0]] + CString(s[1..])
  }

  lemma {:induction false} CStringOf(t: seq<byte>, rest: seq<byte>)
    requires 0 !in t && rest != [] && rest[0] == 0
    ensures CString(t + rest) == t
  {
    if t == [] {
      assert t + rest == rest;
    } else {
      CStringOf(t[1..], rest);
      assert (t + rest)[1..] == t[1..] + rest;
    }
  }

  // strstr
  predicate Contains(s: seq<byte>, p: seq<byte>) {
    exists i | 0 <= i <= |s| :: OccursAt(s, p, i)
  }

  predicate OccursAt(s: seq<byte>, p: seq<byte>, i: int) {
    0 <= i && i + |p| <= |s| && s[i..i + |p|] == p
  }

  // A text contains another when it can be taken apart around it.
  lemma ContainsExactly(s: seq<byte>, p: seq<byte>)
    ensures Contains(s, p) <==> exists before, after :: s == before + p + after
  {
    if Contains(s, p) {
      var i: int :| 0 <= i <= |s| && OccursAt(s, p, i);
      assert s == s[..i] + p + s[i + |p|..];
    }
    forall before, after | s == before + p + after
      ensures Contains(s, p)
    {
      assert s[|before|..|before| + |p|] == p;
      assert OccursAt(s, p, |before|);
    }
  }

  function Index(s: seq<byte>, c: byte): (i: nat)
    ensures i <= |s| && c !in s[..i] && (i < |s| ==> s[i] == c)
  {
    if s == [] || s[0] == c then 0 else 1 + Index(s[1..], c)
  }

  // strings.Split with a separator of one byte
  function Split(s: seq<byte>, c: byte): (fs: seq<seq<byte>>)
    ensures |fs| >= 1
  {
    var i := Index(s, c);
    if i == |s| then [s] else [s[..i]] + Split(s[i + 1..], c)
  }

  function Join(fs: seq<seq<byte>>, c: byte): seq<byte>
    requires |fs| >= 1
  {
    if |fs| == 1 then fs[0] else fs[0] + [c] + Join(fs[1..], c)
  }

  lemma {:induction false} IndexAfter(f: seq<byte>, c: byte, rest: seq<byte>)
    requires c !in f
    ensures Index(f + [c] + rest, c) == |f| && Index(f, c) == |f|
  {
    if f != [] {
      IndexAfter(f[1..], c, rest);
      assert (f + [c] + rest)[1..] == f[1..] + [c] + rest;
    }
  }

  // Splitting gives back what was joined, as long as no field holds the separator.
  lemma {:induction false} SplitJoin(fs: seq<seq<byte>>, c: byte)
    requires |fs| >= 1 && forall i :: 0 <= i < |fs| ==> c !in fs[i]
    ensures Split(Join(fs, c), c) == fs
  {
    hide Index;
    var f := fs[0];
    if |fs| > 1 {
      var rest := Join(fs[1..], c);
      IndexAfter(f, c, rest);
      assert Join(fs, c)[..|f|] == f && Join(fs, c)[|f| + 1..] == rest;
      SplitJoin(fs[1..], c);
      assert fs == [f] + fs[1..];
    } else {
      IndexAfter(f, c, []);
      assert fs == [f];
    }
  }

  function Decimal(n: nat): (s: seq<byte>)
    ensures |s| >= 1 && forall i :: 0 <= i < |s| ==> 48 <= s[i] <= 57
  {
    if n < 10 then [48 + n] else Decimal(n / 10) + [48 + n % 10]
  }

  function SignedDecimal(n: int): (s: seq<byte>)
    ensures |s| >= 1 && forall i :: 0 <= i < |s| ==> s[i] == 45 || 48 <= s[i] <= 57
  {
    if n < 0 then [45] + Decimal(-n) else Decimal(n)
  }

  // The number that digits stand for, read from left to right.
  function Number(s: seq<byte>): int {
    if s == [] then 0 else 10 * Number(s[..|s| - 1]) + s[|s| - 1] - 48
  }

  function SignedNumber(s: seq<byte>): int {
    if s != [] && s[0] == 45 then -Number(s[1..]) else Number(s)
  }

  // The digits of a number read back as the number, without a leading zero.
  lemma {:induction false} DecimalReads(n: nat)
    ensures Number(Decimal(n)) == n
    ensures Decimal(n)[0] == 48 <==> n == 0
  {
    if n >= 10 {
      DecimalReads(n / 10);
      var s := Decimal(n);
      assert s[..|s| - 1] == Decimal(n / 10);
    } else {
      assert Decimal(n)[..0] == [];
    }
  }

  // Signed numbers read back too, with a minus sign exactly when they are negative.
  lemma SignedDecimalReads(n: int)
    ensures SignedNumber(SignedDecimal(n)) == n
    ensures SignedDecimal(n)[0] == 45 <==> n < 0
  {
    if n < 0 {
      DecimalReads(-n);
      assert SignedDecimal(n)[1..] == Decimal(-n);
    } else {
      DecimalReads(n);
    }
  }

  lemma {:induction false} JoinAppend(fs: seq<seq<byte>>, f: seq<byte>, c: byte)
    requires |fs| >= 1
    ensures Join(fs + [f], c) == Join(fs, c) + [c] + f
  {
    assert (fs + [f])[1..] == fs[1..] + [f];
    if |fs| > 1 {
      JoinAppend(fs[1..], f, c);
    }
  }

  lemma {:induction false} DecimalLength(n: nat, k: nat)
    requires k >= 1 && n < Pow(10, k)
    ensures |Decimal(n)| <= k
    decreases k
  {
    if n >= 10 {
      assert Pow(10, k) == 10 * Pow(10, k - 1);
      assert k > 1 by {
        assert Pow(10, 1) == 10 * Pow(10, 0) == 10;
      }
      DecimalLength(n / 10, k - 1);
    }
  }
}

/** The kernel side of process monitoring: syscall_hook/syscall_hook.c. */
module ExecHook {
  import opened Congruence
  import opened BigEndian
  import opened CText

  type Text = s: seq<byte> | 0 !in s

  const SPACE: byte := 32
  const SEPARATOR: byte := 1
  const INT_MAX: int := 0x7fff_ffff
  const PATH_MAX: int := 4096

  // The lengths that strnlen_user counts, terminators included.
  function TotalLength(args: seq<Text>): nat {
    if args == [] then 0 else TotalLength(args[..|args| - 1]) + |args[|args| - 1]| + 1
  }

  // Size of the buffer for a list of strings.
  function BufferSize(args: seq<Text>): nat {
    TotalLength(args) + 16 * |args|
  }

  // The strings one after the other, each followed by a space.
  function Packed(args: seq<Text>): (p: seq<byte>)
    ensures 0 !in p && |p| == TotalLength(args)
  {
    if args == [] then [] else Packed(args[..|args| - 1]) + args[|args| - 1] + [SPACE]
  }

  // Splitting the packed strings at the spaces gives the strings back, in their
  // order, when none of them holds a space.
  lemma PackedSplits(args: seq<Text>)
    requires forall i :: 0 <= i < |args| ==> 32 !in args[i]
    ensures Split(Packed(args), 32) == args + [[]]
  {
    hide *;
    PackedIsJoined(args);
    var fs: seq<seq<byte>> := args + [[]];
    assert forall i :: 0 <= i < |fs| ==> 32 !in fs[i];
    SplitJoin(fs, 32);
  }

  lemma {:induction false} PackedIsJoined(args: seq<Text>)
    ensures Packed(args) == Join(args + [[]], 32)
  {
    if args != [] {
      var init, last := args[..|args| - 1], args[|args| - 1];
      PackedIsJoined(init);
      JoinAppend(init + [last], [], SPACE);
      assert init + [last] == args;
      if init != [] {
        JoinAppend(init, last, SPACE);
        JoinAppend(init, [], SPACE);
      }
    }
  }

  // The arguments without the first, which names the program.
  function Operands(args: seq<Text>): seq<Text> {
    if args == [] then [] else args[1..]
  }

  // The longest prefix of a list whose strings fit, one after the other.
  function Fitting(args: seq<Text>, size: nat): (k: nat)
    ensures k <= |args|
  {
    if args == [] then 0
    else
      var n := |args| - 1;
      var k := Fitting(args[..n], size);
      if k == n && TotalLength(args) <= size then n + 1 else k
  }

  // The prefix ends at the first string that does not fit.
  lemma {:induction false} FittingIsFirst(args: seq<Text>, size: nat, k: nat)
    requires k <= |args| && TotalLength(args[..k]) <= size
    requires k < |args| ==> TotalLength(args[..k + 1]) > size
    ensures Fitting(args, size) == k
  {
    if args != [] {
      var n := |args| - 1;
      if k == |args| {
        assert args[..k] == args;
        assert args[..n][..n] == args[..n];
        assert TotalLength(args[..n]) <= size;
        FittingIsFirst(args[..n], size, n);
      } else {
        assert args[..n][..k] == args[..k];
        if k < n {
          assert args[..n][..k + 1] == args[..k + 1];
        } else {
          assert args[..k + 1] == args;
        }
        FittingIsFirst(args[..n], size, k);
      }
    }
  }

  lemma {:induction false} TotalOfPrefix(args: seq<Text>, k: nat)
    requires k <= |args|
    ensures TotalLength(args[..k]) <= TotalLength(args)
  {
    if k < |args| {
      var n := |args| - 1;
      TotalOfPrefix(args[..n], k);
      assert args[..n][..k] == args[..k];
    } else {
      assert args[..k] == args;
    }
  }

  lemma {:induction false} TotalOfOperands(args: seq<Text>)
    ensures TotalLength(Operands(args)) <= TotalLength(args)
  {
    if |args| > 1 {
      var n := |args| - 1;
      TotalOfOperands(args[..n]);
      assert Operands(args)[..n - 1] == Operands(args[..n]);
    }
  }

  lemma PackedStep(args: seq<Text>, k: nat)
    requires k < |args|
    ensures Packed(args[..k + 1]) == Packed(args[..k]) + args[k] + [SPACE]
    ensures TotalLength(args[..k + 1]) == TotalLength(args[..k]) + |args[k]| + 1
  {
    assert args[..k + 1][..k] == args[..k];
  }

  lemma OperandAt(args: seq<Text>)
    ensures |Operands(args)| == if args == [] then 0 else |args| - 1
    ensures forall i :: 0 < i < |args| ==> Operands(args)[i - 1] == args[i]
  {
  }

  lemma NothingPacked(args: seq<Text>)
    ensures Packed(args[..0]) == [] && TotalLength(args[..0]) == 0
  {
  }

  // The first pass: the lengths added up.
  method Measure(args: seq<Text>) returns (total: nat)
    ensures total == TotalLength(args)
  {
    total := 0;
    for i := 0 to |args|
      invariant total == TotalLength(args[..i])
    {
      total := total + |args[i]| + 1;
      assert args[..i + 1][..i] == args[..i];
    }
    assert args[..|args|] == args;
  }

  method CopyFromUser(buf: array<byte>, offset: nat, s: Text)
    requires offset + |s| + 1 <= buf.Length
    modifies buf
    ensures buf[..] == old(buf[..offset]) + s + [0] + old(buf[offset + |s| + 1..])
  {
    forall j | 0 <= j < |s| {
      buf[offset + j] := s[j];
    }
    buf[offset + |s|] := 0;
    assert forall j :: offset <= j < offset + |s| ==> buf[j] == s[j - offset];
  }

  // A string is copied with its terminator, which a space then replaces.
  method Append(buf: array<byte>, offset: nat, s: Text, ghost p: seq<byte>) returns (next: nat)
    requires offset == |p| && offset + |s| + 1 <= buf.Length
    requires buf[..] == p + Zeros(buf.Length - |p|)
    modifies buf
    ensures next == |p + s + [SPACE]|
    ensures buf[..] == p + s + [SPACE] + Zeros(buf.Length - next)
  {
    var len := |s| + 1;
    CopyFromUser(buf, offset, s);
    assert buf[..] == p + s + [0] + Zeros(buf.Length - offset - len);
    next := offset + (len - 1);
    buf[next] := SPACE;
    next := next + 1;
    assert buf[..] == p + s + [SPACE] + Zeros(buf.Length - next);
  }

  // The two passes over the arguments. The second pass may read other strings
  // than the first, since the program can change them in between: whatever it
  // reads, the buffer holds the strings that fit, then zeros.
  method PackArguments(first: seq<Text>, second: seq<Text>) returns (buf: array<byte>)
    requires |first| == |second| && BufferSize(first) <= INT_MAX
    ensures fresh(buf) && buf.Length == BufferSize(first)
    ensures var fit := Packed(Operands(second)[..Fitting(Operands(second), BufferSize(first))]);
      |fit| <= BufferSize(first) && buf[..] == fit + Zeros(BufferSize(first) - |fit|)
  {
    var argc := |first|;
    var total := Measure(first);
    var size := total + 16 * argc;
    buf := new byte[size](i => 0);
    hide Packed, TotalLength, Fitting, Operands;
    ghost var ops := Operands(second);
    OperandAt(second);
    NothingPacked(ops);
    var offset := 0;
    var i := 0;
    ghost var k := 0;
    while i < argc
      invariant 0 <= i <= argc && k == (if i == 0 then 0 else i - 1)
      invariant offset == TotalLength(ops[..k]) <= size
      invariant buf[..] == Packed(ops[..k]) + Zeros(size - offset)
    {
      if i == 0 {
        i := i + 1;
        continue;
      }
      var len := |second[i]| + 1;
      PackedStep(ops, k);
      if offset + len > size {
        break;
      }
      offset := Append(buf, offset, second[i], Packed(ops[..k]));
      k := k + 1;
      i := i + 1;
    }
    FittingIsFirst(ops, size, k);
  }

  // When the arguments stay the same, every one of them fits.
  lemma UnchangedArgumentsFit(args: seq<Text>)
    ensures Fitting(Operands(args), BufferSize(args)) == |Operands(args)|
  {
    TotalOfOperands(args);
    var ops := Operands(args);
    assert ops[..|ops|] == ops;
    FittingIsFirst(ops, BufferSize(args), |ops|);
  }

  const PWD: seq<byte> := [80, 87, 68]
  const LOGNAME: seq<byte> := [76, 79, 71, 78, 65, 77, 69]
  const USER: seq<byte> := [85, 83, 69, 82]

  predicate Kept(s: Text) {
    Contains(s, PWD) || Contains(s, LOGNAME) || Contains(s, USER)
  }

  // The entries of the environment that are reported, in their order.
  function KeptEntries(env: seq<Text>): (k: seq<Text>)
    ensures |k| <= |env| && TotalLength(k) <= TotalLength(env)
  {
    if env == [] then []
    else
      var n := |env| - 1;
      var k := KeptEntries(env[..n]);
      if Kept(env[n]) then
        assert (k + [env[n]])[..|k|] == k;
        k + [env[n]]
      else k
  }

  // An entry is reported exactly when it holds PWD, LOGNAME or USER, and the
  // reported entries keep their order.
  lemma KeptExactly(env: seq<Text>, rest: seq<Text>, s: Text)
    ensures KeptEntries([s]) == [s] <==>
      exists p: seq<byte>, before: seq<byte>, after: seq<byte> :: p in {PWD, LOGNAME, USER} && s == before + p + after
    ensures KeptEntries([s]) == [s] || KeptEntries([s]) == []
    ensures KeptEntries(env + rest) == KeptEntries(env) + KeptEntries(rest)
  {
    hide *;
    KeptOne(s);
    KeptConcat(env, rest);
  }

  lemma {:induction false} KeptConcat(env: seq<Text>, rest: seq<Text>)
    ensures KeptEntries(env + rest) == KeptEntries(env) + KeptEntries(rest)
    decreases |rest|
  {
    hide Kept, TotalLength;
    if rest == [] {
      assert env + rest == env;
    } else {
      var n := |rest| - 1;
      KeptConcat(env, rest[..n]);
      assert (env + rest)[..|env| + n] == env + rest[..n];
    }
  }

  lemma KeptOne(s: Text)
    ensures KeptEntries([s]) == if Kept(s) then [s] else []
    ensures Kept(s) <==> exists p: seq<byte>, before: seq<byte>, after: seq<byte> :: p in {PWD, LOGNAME, USER} && s == before + p + after
  {
    ContainsExactly(s, PWD);
    ContainsExactly(s, LOGNAME);
    ContainsExactly(s, USER);
    hide Contains;
    assert [s][..0] == [];
  }

  lemma KeptStep(env: seq<Text>, i: nat)
    requires i < |env|
    ensures KeptEntries(env[..i + 1]) == if Kept(env[i]) then KeptEntries(env[..i]) + [env[i]] else KeptEntries(env[..i])
  {
    assert env[..i + 1][..i] == env[..i];
  }

  // The longest entry, with its terminator.
  function Longest(env: seq<Text>): nat {
    if env == [] then 0
    else
      var n := |env| - 1;
      var m := Longest(env[..n]);
      if |env[n]| + 1 > m then |env[n]| + 1 else m
  }

  // The first pass over the environment also finds the longest entry.
  method MeasureLongest(env: seq<Text>) returns (total: nat, maxLen: nat)
    ensures total == TotalLength(env) && maxLen == Longest(env)
  {
    total, maxLen := 0, 0;
    for i := 0 to |env|
      invariant total == TotalLength(env[..i]) && maxLen == Longest(env[..i])
    {
      var len := |env[i]| + 1;
      if len > maxLen {
        maxLen := len;
      }
      total := total + len;
      assert env[..i + 1][..i] == env[..i];
    }
    assert env[..|env|] == env;
  }

  lemma {:induction false} LongestIsLongest(env: seq<Text>)
    ensures forall i :: 0 <= i < |env| ==> |env[i]| + 1 <= Longest(env)
    ensures env != [] ==> exists i :: 0 <= i < |env| && |env[i]| + 1 == Longest(env)
  {
    if env != [] {
      var n := |env| - 1;
      LongestIsLongest(env[..n]);
      assert n == 0 ==> env[..n] == [];
      assert env[n] == env[|env| - 1];
      if Longest(env) != |env[n]| + 1 {
        assert env[..n] != [] && Longest(env) == Longest(env[..n]);
        var i :| 0 <= i < |env[..n]| && |env[..n][i]| + 1 == Longest(env[..n]);
        assert |env[i]| + 1 == Longest(env);
      }
    }
  }

  // The copy of one entry in the work buffer reads as the entry, whatever the
  // buffer held before.
  method ReadEntry(perEnv: array<byte>, maxLen: nat, s: Text) returns (kept: bool)
    requires maxLen <= perEnv.Length && |s| + 1 <= perEnv.Length
    modifies perEnv
    ensures kept == Kept(s)
  {
    for i := 0 to maxLen
      invariant forall j :: 0 <= j < i ==> perEnv[j] == 0
    {
      perEnv[i] := 0;
    }
    CopyFromUser(perEnv, 0, s);
    var text := CString(perEnv[..]);
    assert perEnv[..] == s + perEnv[|s|..];
    CStringOf(s, perEnv[|s|..]);
    kept := Contains(text, PWD) || Contains(text, LOGNAME) || Contains(text, USER);
  }

  // How many entries the second pass handles before one, reported or not, finds
  // no room behind the reported ones.
  function Reached(env: seq<Text>, size: nat): (k: nat)
    ensures k <= |env|
  {
    if env == [] then 0
    else
      var n := |env| - 1;
      var k := Reached(env[..n], size);
      if k == n && TotalLength(KeptEntries(env[..n])) + |env[n]| + 1 <= size then n + 1 else k
  }

  // The pass ends at the first entry without room.
  lemma ReachedStep(env: seq<Text>, i: nat, size: nat)
    requires i < |env|
    ensures Reached(env[..i + 1], size) ==
      if Reached(env[..i], size) == i && TotalLength(KeptEntries(env[..i])) + |env[i]| + 1 <= size then i + 1
      else Reached(env[..i], size)
  {
    assert env[..i + 1][..i] == env[..i];
  }

  lemma {:induction false} ReachedStays(env: seq<Text>, i: nat, size: nat)
    requires i <= |env| && Reached(env[..i], size) < i
    ensures Reached(env, size) == Reached(env[..i], size)
  {
    if i < |env| {
      var n := |env| - 1;
      assert env[..n][..i] == env[..i];
      ReachedStays(env[..n], i, size);
    } else {
      assert env[..i] == env;
    }
  }

  // Behind the reported ones of those before it, an entry has room.
  predicate HasRoom(env: seq<Text>, i: nat, size: nat)
    requires i < |env|
  {
    TotalLength(KeptEntries(env[..i])) + |env[i]| + 1 <= size
  }

  // All entries that are handled have room, and the next one has not.
  lemma {:induction false} ReachedExactly(env: seq<Text>, size: nat)
    ensures var k := Reached(env, size);
      (forall i :: 0 <= i < k ==> HasRoom(env, i, size)) && (k < |env| ==> !HasRoom(env, k, size))
  {
    if env != [] {
      var n := |env| - 1;
      ReachedExactly(env[..n], size);
      assert Reached(env, size) == if Reached(env[..n], size) == n && HasRoom(env, n, size) then n + 1 else Reached(env[..n], size);
      forall i | 0 <= i < n
        ensures HasRoom(env[..n], i, size) <==> HasRoom(env, i, size)
      {
        assert env[..n][..i] == env[..i];
      }
      hide HasRoom, Reached;
    }
  }

  // What the environment buffer holds when the second pass is over.
  function Reported(first: seq<Text>, second: seq<Text>): seq<Text> {
    KeptEntries(second[..Reached(second, BufferSize(first))])
  }

  // The entries that the second pass reads fit in the work buffer, which the
  // first pass sized.
  predicate WorkFits(first: seq<Text>, second: seq<Text>) {
    forall i :: 0 <= i < Reached(second, BufferSize(first)) ==> |second[i]| + 1 <= Longest(first) + 16
  }

  // An environment that stays the same is read to its end, and fits.
  lemma UnchangedEnvironmentFits(env: seq<Text>)
    ensures Reached(env, BufferSize(env)) == |env|
    ensures Reported(env, env) == KeptEntries(env) && WorkFits(env, env)
  {
    ReachesAll(env, BufferSize(env));
    LongestIsLongest(env);
    assert env[..|env|] == env;
  }

  lemma {:induction false} ReachesAll(env: seq<Text>, size: nat)
    requires TotalLength(env) <= size
    ensures Reached(env, size) == |env|
  {
    if env != [] {
      ReachesAll(env[..|env| - 1], size);
    }
  }

  // The two passes over the environment. The second pass may read other
  // strings than the first. As long as what it reads fits in the work buffer,
  // the buffer holds exactly the entries to report, in order, then zeros; what
  // happens after an entry that does not fit is not modelled.
  method PackEnvironment(first: seq<Text>, second: seq<Text>) returns (buf: array<byte>, ok: bool)
    requires |first| == |second| && BufferSize(first) <= INT_MAX
    ensures ok <==> WorkFits(first, second)
    ensures fresh(buf) && buf.Length == BufferSize(first)
    ensures ok ==> var p := Packed(Reported(first, second));
      |p| <= BufferSize(first) && buf[..] == p + Zeros(BufferSize(first) - |p|)
  {
    var total, maxLen := MeasureLongest(first);
    var size := total + 16 * |first|;
    hide Packed, TotalLength, KeptEntries, Kept, Reached, Longest;
    var perEnv := new byte[maxLen + 16];
    buf := new byte[size](i => 0);
    var offset := 0;
    NothingKept(second);
    var i := 0;
    while i < |second|
      invariant 0 <= i <= |second| && Reached(second[..i], size) == i
      invariant forall j :: 0 <= j < i ==> |second[j]| + 1 <= maxLen + 16
      invariant offset == TotalLength(KeptEntries(second[..i])) <= size
      invariant buf[..] == Packed(KeptEntries(second[..i])) + Zeros(size - offset)
    {
      ReachedStep(second, i, size);
      var len := |second[i]| + 1;
      if offset + len > size {
        ReachedStays(second, i + 1, size);
        break;
      }
      if len > perEnv.Length {
        ReachedAtLeast(second, i + 1, size);
        return buf, false;
      }
      KeptStep(second, i);
      var kept := ReadEntry(perEnv, maxLen, second[i]);
      if kept {
        PackedAppend(KeptEntries(second[..i]), second[i]);
        offset := Append(buf, offset, second[i], Packed(KeptEntries(second[..i])));
      }
      i := i + 1;
    }
    assert i == |second| ==> second[..i] == second;
    return buf, true;
  }

  lemma {:induction false} ReachedAtLeast(env: seq<Text>, i: nat, size: nat)
    requires i <= |env| && Reached(env[..i], size) == i
    ensures Reached(env, size) >= i
  {
    if i < |env| {
      var n := |env| - 1;
      assert env[..n][..i] == env[..i];
      ReachedAtLeast(env[..n], i, size);
    } else {
      assert env[..i] == env;
    }
  }

  lemma PackedAppend(args: seq<Text>, s: Text)
    ensures Packed(args + [s]) == Packed(args) + s + [SPACE]
    ensures TotalLength(args + [s]) == TotalLength(args) + |s| + 1
  {
    assert (args + [s])[..|args|] == args;
  }

  lemma NothingKept(env: seq<Text>)
    ensures KeptEntries(env[..0]) == [] && Packed([]) == [] && TotalLength([]) == 0
    ensures forall size: nat :: Reached(env[..0], size) == 0
  {
  }

  // What one program start is reported with; an empty list has no buffer.
  datatype Start = Start(path: Text, args: seq<Text>, tgid: nat, parent: Text, parentTgid: int, env: seq<Text>)

  const NOT_AVAILABLE: seq<byte> := [78, 47, 65]

  function ArgumentField(args: seq<Text>): seq<byte> {
    if args == [] then NOT_AVAILABLE else Packed(Operands(args))
  }

  function EnvironmentField(env: seq<Text>): seq<byte> {
    if env == [] then NOT_AVAILABLE else Packed(KeptEntries(env))
  }

  function Fields(s: Start): seq<seq<byte>> {
    [s.path, ArgumentField(s.args), Decimal(s.tgid), s.parent, SignedDecimal(s.parentTgid), EnvironmentField(s.env)]
  }

  function Record(s: Start): seq<byte> {
    Join(Fields(s), SEPARATOR)
  }

  // nl_send_len before it is clamped
  function WantedLength(s: Start): int {
    |s.path| + |s.parent| + 128
    + (if s.env == [] then 0 else |EnvironmentField(s.env)|)
    + (if s.args == [] then 0 else |ArgumentField(s.args)|)
  }

  // What snprintf leaves in a buffer of the clamped length, up to its terminator.
  function Payload(s: Start): seq<byte> {
    var wanted := WantedLength(s);
    var n := if wanted < PATH_MAX + 2048 then wanted else PATH_MAX + 2048;
    if |Record(s)| < n then Record(s) else Record(s)[..n - 1]
  }

  // A buffer read as a string is what was packed into it.
  lemma BufferReadsAsField(p: seq<byte>, size: nat)
    requires 0 !in p && |p| < size
    ensures CString(p + Zeros(size - |p|)) == p
  {
    CStringOf(p, Zeros(size - |p|));
  }

  lemma DecimalsAreShort(tgid: nat, parentTgid: int)
    requires tgid < 0x1_0000_0000 && -0x8000_0000 <= parentTgid < 0x8000_0000
    ensures |Decimal(tgid)| <= 10 && |SignedDecimal(parentTgid)| <= 11
  {
    assert Pow(10, 10) >= 0x1_0000_0000 by {
      assert Pow(10, 5) == 10 * (10 * (10 * (10 * (10 * Pow(10, 0)))));
      PowAdd(10, 5, 5);
    }
    DecimalLength(tgid, 10);
    DecimalLength(if parentTgid < 0 then -parentTgid else parentTgid, 10);
  }

  lemma RecordLength(s: Start)
    ensures |Record(s)| == |s.path| + |ArgumentField(s.args)| + |Decimal(s.tgid)| + |s.parent|
                           + |SignedDecimal(s.parentTgid)| + |EnvironmentField(s.env)| + 5
  {
    var fs := Fields(s);
    assert fs[5..] == [fs[5]];
    assert fs[4..] == [fs[4]] + fs[5..] && fs[3..] == [fs[3]] + fs[4..];
    assert fs[2..] == [fs[2]] + fs[3..] && fs[1..] == [fs[1]] + fs[2..];
    assert |Join(fs[4..], SEPARATOR)| == |fs[4]| + 1 + |fs[5]|;
    assert |Join(fs[3..], SEPARATOR)| == |fs[3]| + 1 + |Join(fs[4..], SEPARATOR)|;
    assert |Join(fs[2..], SEPARATOR)| == |fs[2]| + 1 + |Join(fs[3..], SEPARATOR)|;
    assert |Join(fs[1..], SEPARATOR)| == |fs[1]| + 1 + |Join(fs[2..], SEPARATOR)|;
  }

  // When the length is not clamped, the whole record fits with its terminator.
  lemma RecordFits(s: Start)
    requires s.tgid < 0x1_0000_0000 && -0x8000_0000 <= s.parentTgid < 0x8000_0000
    requires WantedLength(s) <= PATH_MAX + 2048
    ensures |Record(s)| + 1 <= WantedLength(s)
    ensures Payload(s) == Record(s)
  {
    hide Record, Decimal, SignedDecimal, Packed;
    DecimalsAreShort(s.tgid, s.parentTgid);
    RecordLength(s);
  }

  // The message holds the record, or the bytes of it that fit into 6144 with
  // the terminator.
  lemma PayloadExact(s: Start)
    requires s.tgid < 0x1_0000_0000 && -0x8000_0000 <= s.parentTgid < 0x8000_0000
    ensures Payload(s) == if |Record(s)| < 6144 then Record(s) else Record(s)[..6143]
  {
    hide Record, WantedLength;
    if WantedLength(s) <= PATH_MAX + 2048 {
      RecordFits(s);
    }
  }

  // The argument buffer as it is printed, and what it adds to the message length.
  method ArgumentText(args: seq<Text>) returns (field: seq<byte>, len: nat)
    requires BufferSize(args) <= INT_MAX
    ensures field == ArgumentField(args) && len == if args == [] then 0 else |field|
  {
    var buf := PackArguments(args, args);
    UnchangedArgumentsFit(args);
    ghost var ops := Operands(args);
    assert ops[..|ops|] == ops;
    TotalOfOperands(args);
    hide Packed, Fitting, TotalLength, Operands;
    if buf.Length == 0 {
      return NOT_AVAILABLE, 0;
    }
    BufferReadsAsField(Packed(ops), BufferSize(args));
    field := CString(buf[..]);
    return field, |field|;
  }

  method EnvironmentText(env: seq<Text>) returns (field: seq<byte>, len: nat)
    requires BufferSize(env) <= INT_MAX
    ensures field == EnvironmentField(env) && len == if env == [] then 0 else |field|
  {
    hide Packed, TotalLength, KeptEntries, Reached, Reported, WorkFits;
    var buf, _ := PackEnvironment(env, env);
    UnchangedEnvironmentFits(env);
    NoBuffer(env);
    if buf.Length == 0 {
      return NOT_AVAILABLE, 0;
    }
    BufferReadsAsField(Packed(KeptEntries(env)), BufferSize(env));
    field := CString(buf[..]);
    return field, |field|;
  }

  // Only an empty list has no buffer.
  lemma NoBuffer(env: seq<Text>)
    ensures BufferSize(env) == 0 <==> env == []
  {
  }

  // The buffers and the message, as one program start goes through the hook.
  method Report(s: Start) returns (payload: seq<byte>)
    requires BufferSize(s.args) <= INT_MAX && BufferSize(s.env) <= INT_MAX
    ensures payload == Payload(s)
  {
    hide ArgumentField, EnvironmentField, Decimal, SignedDecimal, Join, BufferSize;
    var argText, argLen := ArgumentText(s.args);
    var envText, envLen := EnvironmentText(s.env);
    var nlSendLen := |s.path| + |s.parent| + 128;
    nlSendLen := nlSendLen + envLen;
    nlSendLen := nlSendLen + argLen;
    nlSendLen := if nlSendLen < PATH_MAX + 2048 then nlSendLen else PATH_MAX + 2048;
    var record := Join([s.path, argText, Decimal(s.tgid), s.parent, SignedDecimal(s.parentTgid), envText], SEPARATOR);
    payload := if |record| < nlSendLen then record else record[..nlSendLen - 1];
  }
}

/** The agent side of process monitoring: agent/monitor/process_linux.go. */
module ProcessMonitor {
  import opened BigEndian
  import opened CText
  import opened ExecHook

  const CAPACITY: nat := 255

  // OutOfRange is the run-time panic on the slice of an empty datagram.
  datatype Outcome =
    | Process(name: seq<byte>, command: seq<byte>, pid: seq<byte>, parentName: seq<byte>, ppid: seq<byte>, info: seq<byte>)
    | Skipped
    | OutOfRange

  // What a datagram means: the fields of all but its last byte.
  function Parsed(datagram: seq<byte>, own: seq<byte> -> bool): Outcome {
    var n := if |datagram| < CAPACITY then |datagram| else CAPACITY;
    if n == 0 then OutOfRange
    else
      var fs := Split(datagram[..n - 1], SEPARATOR);
      if |fs| <= 5 || own(fs[4]) then Skipped
      else Process(fs[0], fs[0] + [SPACE] + fs[1], fs[2], fs[3], fs[4], if |fs| == 6 then fs[5] else [])
  }

  // One turn of the receive loop, which reuses its buffer: what earlier
  // datagrams left in it makes no difference.
  method Receive(buf: array<byte>, datagram: seq<byte>, own: seq<byte> -> bool) returns (r: Outcome)
    requires buf.Length == CAPACITY
    modifies buf
    ensures r == Parsed(datagram, own)
  {
    var n := if |datagram| < buf.Length then |datagram| else buf.Length;
    forall i | 0 <= i < n {
      buf[i] := datagram[i];
    }
    if n == 0 {
      return OutOfRange;
    }
    assert buf[..n - 1] == datagram[..n - 1];
    var proList := Split(buf[..n - 1], SEPARATOR);
    if |proList| <= 5 {
      return Skipped;
    }
    if own(proList[4]) {
      return Skipped;
    }
    var info := [];
    if |proList| == 6 {
      info := proList[5];
    }
    return Process(proList[0], proList[0] + [SPACE] + proList[1], proList[2], proList[3], proList[4], info);
  }

  predicate Separable(s: Start) {
    SEPARATOR !in s.path && SEPARATOR !in ArgumentField(s.args) && SEPARATOR !in s.parent && SEPARATOR !in EnvironmentField(s.env)
  }

  // Any fields without separators come back from a datagram that fits, whatever
  // its last byte is: six or more of them are a process, whose extra information
  // is taken only from exactly six, unless it is the agent's own child.
  lemma FieldsArrive(fs: seq<seq<byte>>, last: byte, own: seq<byte> -> bool)
    requires |fs| >= 1 && forall i :: 0 <= i < |fs| ==> 1 !in fs[i]
    requires |Join(fs, 1)| < 255
    ensures Parsed(Join(fs, 1) + [last], own) ==
      if |fs| <= 5 || own(fs[4]) then Skipped
      else Process(fs[0], fs[0] + [32] + fs[1], fs[2], fs[3], fs[4], if |fs| == 6 then fs[5] else [])
  {
    SplitJoin(fs, 1);
    assert (Join(fs, 1) + [last])[..|Join(fs, 1)|] == Join(fs, 1);
  }

  // A longer datagram is cut to 255 bytes; an empty one is a panic.
  lemma LongDatagramIsCut(datagram: seq<byte>, own: seq<byte> -> bool)
    ensures |datagram| > 255 ==> Parsed(datagram, own) == Parsed(datagram[..255], own)
    ensures Parsed(datagram, own) == OutOfRange <==> datagram == []
  {
    if |datagram| > 255 {
      assert datagram[..255][..254] == datagram[..254];
    }
  }

  // Dropping the last byte of a record shortens its last field, or, when that
  // is empty, takes away the separator before it.
  lemma {:induction false} DropLast(fs: seq<seq<byte>>, c: byte)
    requires |fs| >= 2
    ensures var last, s := fs[|fs| - 1], Join(fs, c);
      |s| > 0 && s[..|s| - 1] ==
        if last == [] then Join(fs[..|fs| - 1], c) else Join(fs[|fs| - 1 := last[..|last| - 1]], c)
    decreases |fs|
  {
    hide Index, Split;
    var n := |fs| - 1;
    var last, s := fs[n], Join(fs, c);
    var shorter := if last == [] then fs[..n] else fs[n := last[..|last| - 1]];
    if n == 1 {
      assert fs[1..] == [last];
      assert last != [] ==> shorter[1..] == [last[..|last| - 1]];
    } else {
      DropLast(fs[1..], c);
      assert fs[1..][..n - 1] == fs[..n][1..];
      assert last != [] ==> fs[1..][n - 1 := last[..|last| - 1]] == shorter[1..];
      assert s == fs[0] + [c] + Join(fs[1..], c);
      assert s[..|s| - 1] == fs[0] + [c] + Join(fs[1..], c)[..|Join(fs[1..], c)| - 1];
    }
  }

  // A start whose environment has no entry to report is skipped by the agent.
  lemma NothingKeptIsSkipped(s: Start, own: seq<byte> -> bool)
    requires Separable(s) && |Record(s)| <= CAPACITY && EnvironmentField(s.env) == []
    ensures Parsed(Record(s), own) == Skipped
  {
    hide Decimal, SignedDecimal, ArgumentField, EnvironmentField, Join, Split;
    var fs := Fields(s);
    DropLast(fs, SEPARATOR);
    SplitJoin(fs[..5], SEPARATOR);
  }

  // A record of at most 255 bytes, whose fields are free of the separator, is
  // reported with its fields, the last one without its final space, exactly
  // when the environment field is not empty and the parent is not the agent;
  // otherwise it is skipped.
  lemma RecordRoundTrip(s: Start, own: seq<byte> -> bool)
    requires Separable(s) && |Record(s)| <= CAPACITY
    ensures var env := EnvironmentField(s.env);
      Parsed(Record(s), own) ==
        if env == [] || own(SignedDecimal(s.parentTgid)) then Skipped
        else Process(s.path, s.path + [SPACE] + ArgumentField(s.args), Decimal(s.tgid), s.parent,
                     SignedDecimal(s.parentTgid), env[..|env| - 1])
  {
    hide Decimal, SignedDecimal, ArgumentField, EnvironmentField, Join, Split;
    var fs, env := Fields(s), EnvironmentField(s.env);
    if env == [] {
      NothingKeptIsSkipped(s, own);
    } else {
      DropLast(fs, SEPARATOR);
      SplitJoin(fs[5 := env[..|env| - 1]], SEPARATOR);
    }
  }

  // For example, one whose environment is the single entry "A".
  lemma SkippedExample(own: seq<byte> -> bool)
    ensures exists s: Start ::
              s.env == [[65]] && WantedLength(s) <= PATH_MAX + 2048 && Payload(s) == Record(s) && Parsed(Payload(s), own) == Skipped
  {
    var env: seq<Text> := [[65]];
    var args: seq<Text> := [[97], [98]];
    var s := Start([97], args, 7, [98], 1, env);
    assert Decimal(7) == [55] && SignedDecimal(1) == [49];
    assert KeptEntries(env) == [] by {
      assert KeptEntries(env[..0]) == [];
    }
    assert Operands(args) == [[98]];
    assert Packed(Operands(args)[..0]) == [];
    assert ArgumentField(args) == [98, SPACE];
    RecordLength(s);
    hide ArgumentField, Record, Decimal, SignedDecimal, Parsed, Packed, KeptEntries;
    RecordFits(s);
    NothingKeptIsSkipped(s, own);
  }

  // From the start of a program to the agent: with a kept environment entry,
  // every field arrives, the environment without its trailing space.
  lemma StartArrives(s: Start, own: seq<byte> -> bool)
    requires s.tgid < 0x1_0000_0000 && -0x8000_0000 <= s.parentTgid < 0x8000_0000
    requires Separable(s) && |Record(s)| <= CAPACITY && !own(SignedDecimal(s.parentTgid))
    requires KeptEntries(s.env) != []
    ensures var r := Parsed(Payload(s), own);
      && r.Process?
      && r == Process(s.path, s.path + [SPACE] + ArgumentField(s.args), Decimal(s.tgid), s.parent, SignedDecimal(s.parentTgid), r.info)
      && r.info + [SPACE] == Packed(KeptEntries(s.env))
      && Number(r.pid) == s.tgid && SignedNumber(r.ppid) == s.parentTgid
  {
    DecimalReads(s.tgid);
    SignedDecimalReads(s.parentTgid);
    hide Number, SignedNumber;
    RecordLength(s);
    RecordFits(s);
    hide Parsed, Payload, Record, Decimal, SignedDecimal, ArgumentField;
    RecordRoundTrip(s, own);
    var k := KeptEntries(s.env);
    var env := Packed(k);
    assert env == Packed(k[..|k| - 1]) + k[|k| - 1] + [SPACE];
    assert env[..|env| - 1] + [SPACE] == env;
  }

  // The strings themselves arrive: when none of them holds a space, the command
  // splits into the path and the arguments after the first, and the information
  // into the entries of the environment that are kept.
  lemma StringsArrive(s: Start, own: seq<byte> -> bool)
    requires s.tgid < 0x1_0000_0000 && -0x8000_0000 <= s.parentTgid < 0x8000_0000
    requires Separable(s) && |Record(s)| <= CAPACITY && !own(SignedDecimal(s.parentTgid))
    requires s.args != [] && KeptEntries(s.env) != []
    requires 32 !in s.path && (forall a :: a in s.args ==> 32 !in a) && (forall e :: e in KeptEntries(s.env) ==> 32 !in e)
    ensures var r := Parsed(Payload(s), own);
      && r.Process?
      && Split(r.command, 32) == [s.path] + s.args[1..] + [[]]
      && Split(r.info, 32) == KeptEntries(s.env)
  {
    assert ArgumentField(s.args) == Packed(s.args[1..]);
    StartArrives(s, own);
    hide *;
    CommandSplits(s.path, s.args[1..]);
    InfoSplits(KeptEntries(s.env), Parsed(Payload(s), own).info);
  }

  lemma InfoSplits(kept: seq<Text>, info: seq<byte>)
    requires kept != [] && info + [32] == Packed(kept) && forall e :: e in kept ==> 32 !in e
    ensures Split(info, 32) == kept
  {
    hide Packed, Split, Join;
    PackedIsJoined(kept);
    JoinAppend(kept, [], 32);
    assert info == (info + [32])[..|info|] == (Join(kept, 32) + [32] + [])[..|info|] == Join(kept, 32);
    SplitJoin(kept, 32);
  }

  lemma CommandSplits(path: Text, ops: seq<Text>)
    requires 32 !in path && forall a :: a in ops ==> 32 !in a
    ensures Split(path + [32] + Packed(ops), 32) == [path] + ops + [[]]
  {
    hide Packed, Split;
    PackedIsJoined(ops);
    var fs: seq<seq<byte>> := [path] + ops + [[]];
    assert fs[1..] == ops + [[]];
    SplitJoin(fs, 32);
  }
}
