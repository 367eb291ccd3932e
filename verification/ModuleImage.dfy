/**
  The packed image that Toolchain/ModulePacker/main.c writes and Kernel/moduleLoader.c takes apart: the
  kernel, the number of modules as four little-endian bytes, and before each module its size likewise.
 */
module ModuleImage {
  import opened Bytes
  import opened Options

  const WORD32: nat := 0x1_0000_0000

  /** A uint32_t as the machine stores it, least significant byte first. */
  function U32(n: nat): (s: seq<byte>)
    ensures |s| == 4
  {
    [n % 256, n / 256 % 256, n / 65536 % 256, n / 16777216 % 256]
  }

  function Value(b0: byte, b1: byte, b2: byte, b3: byte): (n: nat) {
    b0 + 256 * b1 + 65536 * b2 + 16777216 * b3
  }

  /** The stores truncate to 32 bits and lose nothing else. */
  lemma U32RoundTrip(n: nat)
    ensures Value(U32(n)[0], U32(n)[1], U32(n)[2], U32(n)[3]) == n % WORD32
  {
    var q1 := n / 256;
    var q2 := q1 / 256;
    var q3 := q2 / 256;
    var q4 := q3 / 256;
    Quotients(n);
    assert n == 256 * q1 + n % 256 && q1 == 256 * q2 + q1 % 256;
    assert q2 == 256 * q3 + q2 % 256 && q3 == 256 * q4 + q3 % 256;
    assert n == WORD32 * q4 + Value(U32(n)[0], U32(n)[1], U32(n)[2], U32(n)[3]);
  }

  lemma Quotients(n: nat)
    ensures n / 65536 == n / 256 / 256 && n / 16777216 == n / 65536 / 256
  {
  }

  /** The least significant byte comes first. */
  lemma U32IsLittleEndian(n: nat)
    ensures var s := U32(n);
      s[0] as int + 256 * (s[1] as int) + 65536 * (s[2] as int) + 16777216 * (s[3] as int) == n % 0x1_0000_0000
  {
    U32RoundTrip(n);
  }

  function Sized(m: seq<byte>): seq<byte> { U32(|m|) + m }

  function Modules(ms: seq<seq<byte>>): seq<byte> {
    if ms == [] then [] else Modules(ms[..|ms| - 1]) + Sized(ms[|ms| - 1])
  }

  /** The image of a kernel, the first file, and its modules. */
  function Image(files: seq<seq<byte>>): seq<byte>
    requires files != []
  {
    files[0] + U32(|files| - 1) + Modules(files[1..])
  }

  lemma Associates(a: seq<byte>, b: seq<byte>, c: seq<byte>)
    ensures (a + b) + c == a + (b + c)
  {
  }

  lemma {:induction false} ModulesFromTheFront(ms: seq<seq<byte>>)
    requires ms != []
    ensures Modules(ms) == Sized(ms[0]) + Modules(ms[1..])
  {
    var k := |ms| - 1;
    var rest := ms[1..];
    if k == 0 {
      assert ms[..0] == [] && rest == [];
      assert Modules(ms) == [] + Sized(ms[0]);
    } else {
      var front := ms[..k];
      ModulesFromTheFront(front);
      assert rest[..k - 1] == front[1..] && front[0] == ms[0] && rest[k - 1] == ms[k];
      assert Modules(rest) == Modules(front[1..]) + Sized(ms[k]);
      Associates(Sized(ms[0]), Modules(front[1..]), Sized(ms[k]));
    }
  }

  /** Where the size of module k, counted from 1, stands in the image. */
  function SizeAt(files: seq<seq<byte>>, k: nat): nat
    requires 1 <= k <= |files|
  {
    if k == 1 then |files[0]| + 4 else SizeAt(files, k - 1) + 4 + |files[k - 1]|
  }

  lemma {:induction false} ModulesPrefix(files: seq<seq<byte>>, k: nat)
    requires 1 <= k <= |files|
    ensures |files[0]| + 4 + |Modules(files[1..k])| == SizeAt(files, k)
    ensures Modules(files[1..k]) <= Modules(files[1..])
    decreases |files| - k, k
  {
    if k < |files| {
      ModulesPrefix(files, k + 1);
      assert files[1..k + 1][..k - 1] == files[1..k];
      assert files[1..k + 1][k - 1] == files[k];
      assert Modules(files[1..k + 1]) == Modules(files[1..k]) + Sized(files[k]);
    } else {
      assert files[1..k] == files[1..];
    }
    PrefixLength(files, k);
  }

  lemma {:induction false} PrefixLength(files: seq<seq<byte>>, k: nat)
    requires 1 <= k <= |files|
    ensures |files[0]| + 4 + |Modules(files[1..k])| == SizeAt(files, k)
    decreases k
  {
    if k > 1 {
      PrefixLength(files, k - 1);
      assert files[1..k][..k - 2] == files[1..k - 1] && files[1..k][k - 2] == files[k - 1];
    } else {
      assert files[1..1] == [];
    }
  }

  // ---------- Bytes at an address ----------

  /** The bytes stand in memory from p on. */
  ghost predicate Holds(m: seq<byte>, p: nat, bytes: seq<byte>) {
    p + |bytes| <= |m| && m[p..p + |bytes|] == bytes
  }

  /** What is in front of module k, and what behind it. */
  lemma LayoutRest(files: seq<seq<byte>>, k: nat) returns (before: seq<byte>, rest: seq<byte>)
    requires 1 <= k < |files|
    ensures |files[0]| + 4 + |before| == SizeAt(files, k)
    ensures Image(files) == files[0] + U32(|files| - 1) + (before + (U32(|files[k]|) + files[k]) + rest)
  {
    before := Modules(files[1..k]);
    var upTo := Modules(files[1..k + 1]);
    PrefixLength(files, k);
    ModulesPrefix(files, k + 1);
    assert files[1..k + 1][..k - 1] == files[1..k] && files[1..k + 1][k - 1] == files[k];
    assert upTo == Modules(files[1..k]) + Sized(files[k]);
    rest := Modules(files[1..])[|upTo|..];
  }

  lemma InBetween(a: seq<byte>, b: seq<byte>, c: seq<byte>, whole: seq<byte>)
    requires whole == a + b + c
    ensures Holds(whole, |a|, b)
  {
  }

  /** The kernel comes first, then the count; the size of a module stands at that place, and the module behind it. */
  ghost predicate LaidOut(image: seq<byte>, kernel: seq<byte>, count: seq<byte>, at: nat, size: seq<byte>,
                          file: seq<byte>)
  {
    Holds(image, 0, kernel) && Holds(image, |kernel|, count) && Holds(image, at, size) && Holds(image, at + 4, file)
  }

  /** Where the pieces of an image stand. */
  lemma Pieces(a: seq<byte>, b: seq<byte>, c: seq<byte>, d: seq<byte>, e: seq<byte>, f: seq<byte>, whole: seq<byte>,
               at: nat)
    requires whole == a + b + (c + (d + e) + f) && |b| == 4 && |d| == 4 && at == |a| + 4 + |c|
    ensures LaidOut(whole, a, b, at, d, e)
  {
    InBetween([], a, b + (c + (d + e) + f), whole);
    InBetween(a, b, c + (d + e) + f, whole);
    InBetween(a + b + c, d, e + f, whole);
    InBetween(a + b + c + d, e, f, whole);
  }

  /** The image: the kernel, the number of modules, and then each module behind its size. */
  lemma ImageLayout(files: seq<seq<byte>>, k: nat)
    requires 1 <= k < |files|
    ensures LaidOut(Image(files), files[0], U32(|files| - 1), SizeAt(files, k), U32(|files[k]|), files[k])
  {
    var before, rest := LayoutRest(files, k);
    Pieces(files[0], U32(|files| - 1), before, U32(|files[k]|), files[k], rest, Image(files), SizeAt(files, k));
  }

  lemma HoldsSplit(m: seq<byte>, p: nat, a: seq<byte>, b: seq<byte>)
    requires Holds(m, p, a + b)
    ensures Holds(m, p, a) && Holds(m, p + |a|, b)
  {
    var w := m[p..p + |a + b|];
    assert m[p..p + |a|] == w[..|a|] == a;
    assert m[p + |a|..p + |a| + |b|] == w[|a|..] == b;
  }

  // ---------- Copying forwards ----------

  /** Memory after n bytes have been copied one at a time, lowest address first. */
  function Forward(m: seq<byte>, d: nat, s: nat, n: nat): (r: seq<byte>)
    requires d + n <= |m| && s + n <= |m|
    ensures |r| == |m|
  {
    if n == 0 then m else var before := Forward(m, d, s, n - 1); before[d + n - 1 := before[s + n - 1]]
  }

  /** Nothing but the destination changes. */
  lemma {:induction false} ForwardOutside(m: seq<byte>, d: nat, s: nat, n: nat, a: nat)
    requires d + n <= |m| && s + n <= |m| && a < |m| && !(d <= a < d + n)
    ensures Forward(m, d, s, n)[a] == m[a]
  {
    if n > 0 { ForwardOutside(m, d, s, n - 1, a); }
  }

  /** The destination holds the source, unless it starts inside it. */
  lemma {:induction false} ForwardCopies(m: seq<byte>, d: nat, s: nat, n: nat, k: nat)
    requires d + n <= |m| && s + n <= |m| && k < n
    requires d <= s || s + n <= d
    ensures Forward(m, d, s, n)[d + k] == m[s + k]
  {
    if k == n - 1 {
      ForwardOutside(m, d, s, n - 1, s + k);
    } else {
      ForwardCopies(m, d, s, n - 1, k);
    }
  }

  lemma CopyLands(m: seq<byte>, d: nat, s: nat, n: nat)
    requires d + n <= |m| && s + n <= |m| && (d <= s || s + n <= d)
    ensures Forward(m, d, s, n)[d..d + n] == m[s..s + n]
  {
    var r := Forward(m, d, s, n);
    forall a | d <= a < d + n ensures r[a] == m[s + (a - d)] {
      ForwardCopies(m, d, s, n, a - d);
    }
  }

  // ---------- Taking the image apart ----------

  function Word(m: seq<byte>, p: nat): (n: nat)
    requires p + 4 <= |m|
  {
    Value(m[p], m[p + 1], m[p + 2], m[p + 3])
  }

  lemma WordOfU32(m: seq<byte>, p: nat, n: nat)
    requires Holds(m, p, U32(n)) && n < WORD32
    ensures p + 4 <= |m| && Word(m, p) == n
  {
    U32RoundTrip(n);
    assert m[p..p + 4][0] == m[p] && m[p..p + 4][1] == m[p + 1];
    assert m[p..p + 4][2] == m[p + 2] && m[p..p + 4][3] == m[p + 3];
  }

  /** Memory and the module pointer. */
  datatype Loader = Loader(m: seq<byte>, p: nat)

  /** One module, unless the loader would leave memory. */
  function LoadModule(l: Loader, target: nat): (r: Option<Loader>)
    ensures r.Some? ==> |r.value.m| == |l.m|
  {
    if l.p + 4 > |l.m| then None
    else
      var n := Word(l.m, l.p);
      if l.p + 4 + n > |l.m| || target + n > |l.m| then None
      else Some(Loader(Forward(l.m, target, l.p + 4, n), l.p + 4 + n))
  }

  /** Memory and the module pointer after k modules. */
  function Load(l: Loader, targets: seq<nat>, k: nat): (r: Option<Loader>)
    requires k <= |targets|
    ensures r.Some? ==> |r.value.m| == |l.m|
    decreases k
  {
    if k == 0 then Some(l)
    else match LoadModule(l, targets[0])
      case None => None
      case Some(next) => Load(next, targets[1..], k - 1)
  }

  predicate Apart(a: nat, n: nat, b: nat, k: nat) {
    n == 0 || k == 0 || a + n <= b || b + k <= a
  }

  /** Every module fits its target, and targets keep clear of each other and of the rest of the payload. */
  ghost predicate TargetsFit(size: nat, p: nat, targets: seq<nat>, ms: seq<seq<byte>>) {
    && |targets| >= |ms|
    && p + |Modules(ms)| <= size
    && (forall i | 0 <= i < |ms| :: |ms[i]| < WORD32 && targets[i] + |ms[i]| <= size)
    && (forall i | 0 <= i < |ms| :: Apart(targets[i], |ms[i]|, p, |Modules(ms)|))
    && (forall i, j | 0 <= i < j < |ms| :: Apart(targets[i], |ms[i]|, targets[j], |ms[j]|))
  }

  predicate InTarget(a: nat, t: nat, n: nat) { t <= a < t + n }

  /** Address a lies in no target. */
  ghost predicate Spared(a: nat, targets: seq<nat>, ms: seq<seq<byte>>)
    requires |targets| >= |ms|
  {
    forall i | 0 <= i < |ms| :: !InTarget(a, targets[i], |ms[i]|)
  }

  ghost predicate SparedSame(m: seq<byte>, r: seq<byte>, targets: seq<nat>, ms: seq<seq<byte>>)
    requires |targets| >= |ms| && |m| == |r|
  {
    forall a | 0 <= a < |m| && Spared(a, targets, ms) :: r[a] == m[a]
  }

  ghost predicate AllLanded(m: seq<byte>, targets: seq<nat>, ms: seq<seq<byte>>)
    requires |targets| >= |ms|
  {
    forall i | 0 <= i < |ms| :: Holds(m, targets[i], ms[i])
  }

  /** The first module is read where it stands. */
  lemma ReadOne(m: seq<byte>, p: nat, ms: seq<seq<byte>>)
    requires ms != [] && |ms[0]| < WORD32 && Holds(m, p, Modules(ms))
    ensures |Modules(ms)| == 4 + |ms[0]| + |Modules(ms[1..])|
    ensures p + 4 + |ms[0]| <= |m| && Word(m, p) == |ms[0]|
    ensures Holds(m, p + 4, ms[0]) && Holds(m, p + 4 + |ms[0]|, Modules(ms[1..]))
  {
    ModulesFromTheFront(ms);
    HoldsSplit(m, p, Sized(ms[0]), Modules(ms[1..]));
    HoldsSplit(m, p, U32(|ms[0]|), ms[0]);
    WordOfU32(m, p, |ms[0]|);
  }

  lemma {:induction false} HoldsApart(m: seq<byte>, d: nat, s: nat, n: nat, p: nat, bytes: seq<byte>)
    requires d + n <= |m| && s + n <= |m| && Holds(m, p, bytes) && Apart(d, n, p, |bytes|)
    ensures Holds(Forward(m, d, s, n), p, bytes)
  {
    var r := Forward(m, d, s, n);
    forall a | p <= a < p + |bytes| ensures r[a] == m[a] {
      ForwardOutside(m, d, s, n, a);
    }
    assert r[p..p + |bytes|] == m[p..p + |bytes|];
  }

  /** A module of n bytes behind its size, copied clear of the size, itself and the rest that follows. */
  lemma CopyOne(m: seq<byte>, p: nat, t: nat, module_: seq<byte>, rest: seq<byte>)
    requires t + |module_| <= |m| && Holds(m, p + 4, module_) && Holds(m, p + 4 + |module_|, rest)
    requires Apart(t, |module_|, p, 4 + |module_| + |rest|)
    ensures Holds(Forward(m, t, p + 4, |module_|), t, module_)
    ensures Holds(Forward(m, t, p + 4, |module_|), p + 4 + |module_|, rest)
  {
    if |module_| > 0 { CopyLands(m, t, p + 4, |module_|); }
    HoldsApart(m, t, p + 4, |module_|, p + 4 + |module_|, rest);
  }

  /** Copying it to its target leaves the rest of the payload in place. */
  lemma LoadOne(m: seq<byte>, p: nat, targets: seq<nat>, ms: seq<seq<byte>>)
    requires ms != [] && TargetsFit(|m|, p, targets, ms) && Holds(m, p, Modules(ms))
    ensures |Modules(ms)| == 4 + |ms[0]| + |Modules(ms[1..])|
    ensures p + 4 + |ms[0]| <= |m| && Word(m, p) == |ms[0]| && targets[0] + |ms[0]| <= |m|
    ensures Holds(Forward(m, targets[0], p + 4, |ms[0]|), targets[0], ms[0])
    ensures Holds(Forward(m, targets[0], p + 4, |ms[0]|), p + 4 + |ms[0]|, Modules(ms[1..]))
  {
    ReadOne(m, p, ms);
    assert Apart(targets[0], |ms[0]|, p, |Modules(ms)|);
    CopyOne(m, p, targets[0], ms[0], Modules(ms[1..]));
  }

  lemma FitsRest(size: nat, p: nat, targets: seq<nat>, ms: seq<seq<byte>>)
    requires ms != [] && TargetsFit(size, p, targets, ms) && |Modules(ms)| == 4 + |ms[0]| + |Modules(ms[1..])|
    ensures TargetsFit(size, p + 4 + |ms[0]|, targets[1..], ms[1..])
  {
    var q, ts, rest := p + 4 + |ms[0]|, targets[1..], ms[1..];
    forall i | 0 <= i < |rest| ensures Apart(ts[i], |rest[i]|, q, |Modules(rest)|) {
      assert Apart(targets[i + 1], |ms[i + 1]|, p, |Modules(ms)|);
    }
    forall i, j | 0 <= i < j < |rest| ensures Apart(ts[i], |rest[i]|, ts[j], |rest[j]|) {
      assert Apart(targets[i + 1], |ms[i + 1]|, targets[j + 1], |ms[j + 1]|);
    }
    forall i | 0 <= i < |rest| ensures |rest[i]| < WORD32 && ts[i] + |rest[i]| <= size {
      assert |ms[i + 1]| < WORD32 && targets[i + 1] + |ms[i + 1]| <= size;
    }
  }

  /** The targets of later modules leave the first one alone. */
  lemma FirstIsSpared(size: nat, p: nat, targets: seq<nat>, ms: seq<seq<byte>>, a: nat)
    requires ms != [] && TargetsFit(size, p, targets, ms) && InTarget(a, targets[0], |ms[0]|)
    ensures Spared(a, targets[1..], ms[1..])
  {
    forall i | 0 <= i < |ms| - 1 ensures !InTarget(a, targets[1..][i], |ms[1..][i]|) {
      assert Apart(targets[0], |ms[0]|, targets[i + 1], |ms[i + 1]|);
    }
  }

  lemma SparedByAll(targets: seq<nat>, ms: seq<seq<byte>>, a: nat)
    requires ms != [] && |targets| >= |ms| && Spared(a, targets, ms)
    ensures Spared(a, targets[1..], ms[1..]) && !InTarget(a, targets[0], |ms[0]|)
  {
    forall i | 0 <= i < |ms| - 1 ensures !InTarget(a, targets[1..][i], |ms[1..][i]|) {
      assert !InTarget(a, targets[i + 1], |ms[i + 1]|);
    }
  }

  lemma FirstStays(m: seq<byte>, r: seq<byte>, p: nat, targets: seq<nat>, ms: seq<seq<byte>>)
    requires ms != [] && TargetsFit(|m|, p, targets, ms) && |m| == |r|
    requires Holds(m, targets[0], ms[0]) && SparedSame(m, r, targets[1..], ms[1..])
    ensures Holds(r, targets[0], ms[0])
  {
    var t, n := targets[0], |ms[0]|;
    forall a | t <= a < t + n ensures r[a] == m[a] {
      FirstIsSpared(|m|, p, targets, ms, a);
    }
    assert r[t..t + n] == m[t..t + n];
  }

  lemma AllButFirst(r: seq<byte>, targets: seq<nat>, ms: seq<seq<byte>>)
    requires ms != [] && |targets| >= |ms|
    requires Holds(r, targets[0], ms[0]) && AllLanded(r, targets[1..], ms[1..])
    ensures AllLanded(r, targets, ms)
  {
    forall i | 0 <= i < |ms| ensures Holds(r, targets[i], ms[i]) {
      if i > 0 { assert Holds(r, targets[1..][i - 1], ms[1..][i - 1]); }
    }
  }

  lemma SparedThroughOne(m: seq<byte>, r: seq<byte>, p: nat, targets: seq<nat>, ms: seq<seq<byte>>)
    requires ms != [] && |targets| >= |ms| && |m| == |r|
    requires p + 4 + |ms[0]| <= |m| && targets[0] + |ms[0]| <= |m|
    requires SparedSame(Forward(m, targets[0], p + 4, |ms[0]|), r, targets[1..], ms[1..])
    ensures SparedSame(m, r, targets, ms)
  {
    forall a | 0 <= a < |m| && Spared(a, targets, ms) ensures r[a] == m[a] {
      SparedByAll(targets, ms, a);
      ForwardOutside(m, targets[0], p + 4, |ms[0]|, a);
    }
  }

  /** Every module is at its target, and nothing outside the targets has changed. */
  ghost predicate Arrived(m: seq<byte>, r: seq<byte>, targets: seq<nat>, ms: seq<seq<byte>>) {
    |targets| >= |ms| && |m| == |r| && AllLanded(r, targets, ms) && SparedSame(m, r, targets, ms)
  }

  /** The rest, loaded after the first module, and the first module make up the whole. */
  lemma Joined(m: seq<byte>, first: seq<byte>, r: seq<byte>, p: nat, targets: seq<nat>, ms: seq<seq<byte>>)
    requires ms != [] && TargetsFit(|m|, p, targets, ms)
    requires p + 4 + |ms[0]| <= |m| && targets[0] + |ms[0]| <= |m|
    requires first == Forward(m, targets[0], p + 4, |ms[0]|)
    requires Holds(first, targets[0], ms[0]) && Arrived(first, r, targets[1..], ms[1..])
    ensures Arrived(m, r, targets, ms)
  {
    FirstStays(first, r, p, targets, ms);
    AllButFirst(r, targets, ms);
    SparedThroughOne(m, r, p, targets, ms);
  }

  lemma LoadModuleIs(m: seq<byte>, p: nat, t: nat, n: nat)
    requires p + 4 + n <= |m| && Word(m, p) == n && t + n <= |m|
    ensures LoadModule(Loader(m, p), t) == Some(Loader(Forward(m, t, p + 4, n), p + 4 + n))
  {
  }

  /** From p on, k modules are loaded, leaving memory r and the pointer q. */
  ghost predicate LoadsTo(m: seq<byte>, p: nat, targets: seq<nat>, k: nat, r: seq<byte>, q: nat) {
    k <= |targets| && Load(Loader(m, p), targets, k) == Some(Loader(r, q))
  }

  lemma LoadFirst(m: seq<byte>, first: seq<byte>, p: nat, p1: nat, targets: seq<nat>, k: nat, r: seq<byte>, q: nat)
    requires 0 < k <= |targets| && LoadModule(Loader(m, p), targets[0]) == Some(Loader(first, p1))
    requires LoadsTo(first, p1, targets[1..], k - 1, r, q)
    ensures LoadsTo(m, p, targets, k, r, q)
  {
  }

  lemma LoadNone(m: seq<byte>, p: nat, targets: seq<nat>)
    ensures LoadsTo(m, p, targets, 0, m, p)
  {
  }

  lemma LoadRest(m: seq<byte>, first: seq<byte>, p: nat, p1: nat, targets: seq<nat>, k: nat, r: seq<byte>, q: nat)
    requires 0 < k <= |targets| && LoadModule(Loader(m, p), targets[0]) == Some(Loader(first, p1))
    requires LoadsTo(m, p, targets, k, r, q)
    ensures LoadsTo(first, p1, targets[1..], k - 1, r, q) && |r| == |m|
  {
  }

  /** One module off the front: what is left is again a payload whose targets fit. */
  lemma FrontModule(m: seq<byte>, p: nat, targets: seq<nat>, ms: seq<seq<byte>>)
    returns (first: seq<byte>, p1: nat)
    requires ms != [] && TargetsFit(|m|, p, targets, ms) && Holds(m, p, Modules(ms))
    ensures LoadModule(Loader(m, p), targets[0]) == Some(Loader(first, p1))
    ensures |first| == |m| && p1 + |Modules(ms[1..])| == p + |Modules(ms)|
    ensures TargetsFit(|first|, p1, targets[1..], ms[1..]) && Holds(first, p1, Modules(ms[1..]))
    ensures p1 == p + 4 + |ms[0]| <= |m| && targets[0] + |ms[0]| <= |m|
    ensures first == Forward(m, targets[0], p + 4, |ms[0]|) && Holds(first, targets[0], ms[0])
  {
    LoadOne(m, p, targets, ms);
    FitsRest(|m|, p, targets, ms);
    LoadModuleIs(m, p, targets[0], |ms[0]|);
    first, p1 := Forward(m, targets[0], p + 4, |ms[0]|), p + 4 + |ms[0]|;
  }

  /** The modules part is loaded to its end. */
  lemma {:induction false} LoadEnds(m: seq<byte>, p: nat, targets: seq<nat>, ms: seq<seq<byte>>, k: nat, q: nat)
    returns (r: seq<byte>)
    requires TargetsFit(|m|, p, targets, ms) && Holds(m, p, Modules(ms))
    requires k == |ms| && q == p + |Modules(ms)|
    ensures LoadsTo(m, p, targets, k, r, q)
    decreases k
  {
    if k == 0 {
      r := m;
      LoadNone(m, p, targets);
    } else {
      var first, p1 := FrontModule(m, p, targets, ms);
      r := LoadEnds(first, p1, targets[1..], ms[1..], k - 1, q);
      LoadFirst(m, first, p, p1, targets, k, r, q);
    }
  }

  /** What has been loaded to its end has put every module at its target. */
  lemma {:induction false} LoadLands(m: seq<byte>, p: nat, targets: seq<nat>, ms: seq<seq<byte>>, k: nat, r: seq<byte>,
                                     q: nat)
    requires TargetsFit(|m|, p, targets, ms) && Holds(m, p, Modules(ms))
    requires k == |ms| && LoadsTo(m, p, targets, k, r, q)
    ensures Arrived(m, r, targets, ms)
    decreases k
  {
    if k > 0 {
      var first, p1 := FrontModule(m, p, targets, ms);
      LoadRest(m, first, p, p1, targets, k, r, q);
      LoadLands(first, p1, targets[1..], ms[1..], k - 1, r, q);
      Joined(m, first, r, p, targets, ms);
    }
  }

  lemma LoadAll(m: seq<byte>, p: nat, targets: seq<nat>, ms: seq<seq<byte>>, k: nat, q: nat)
    returns (r: seq<byte>)
    requires TargetsFit(|m|, p, targets, ms) && Holds(m, p, Modules(ms))
    requires k == |ms| && q == p + |Modules(ms)|
    ensures LoadsTo(m, p, targets, k, r, q) && Arrived(m, r, targets, ms)
  {
    r := LoadEnds(m, p, targets, ms, k, q);
    LoadLands(m, p, targets, ms, k, r, q);
  }

  /** Kernel and modules are the files, and their image stands from start to q, the payload from p. */
  ghost predicate ImageAt(m: seq<byte>, kernel: seq<byte>, ms: seq<seq<byte>>, start: nat, p: nat, q: nat) {
    && |ms| < WORD32 && Holds(m, start, Image([kernel] + ms))
    && p == start + |kernel| && q == start + |Image([kernel] + ms)|
  }

  /** Where the parts of an image stand. */
  lemma ImageParts(m: seq<byte>, kernel: seq<byte>, ms: seq<seq<byte>>, start: nat, p: nat, q: nat)
    requires ImageAt(m, kernel, ms, start, p, q)
    ensures p + 4 <= |m| && Word(m, p) == |ms|
    ensures Holds(m, p + 4, Modules(ms))
    ensures q == p + 4 + |Modules(ms)|
  {
    assert ([kernel] + ms)[1..] == ms;
    HoldsSplit(m, start, kernel + U32(|ms|), Modules(ms));
    HoldsSplit(m, start, kernel, U32(|ms|));
    WordOfU32(m, p, |ms|);
  }

  /**
    The round trip, for any kernel and any modules below 2^32 bytes: with the image in memory from start
    to q, the loader started at p, just behind the kernel, reads the number of modules, ends at q, has
    put every module at its target, and has changed nothing outside the targets.
   */
  lemma ImageRoundTrip(m: seq<byte>, kernel: seq<byte>, ms: seq<seq<byte>>, start: nat, p: nat, q: nat,
                       targets: seq<nat>) returns (r: seq<byte>)
    requires ImageAt(m, kernel, ms, start, p, q) && TargetsFit(|m|, p + 4, targets, ms)
    ensures p + 4 <= |m| && Word(m, p) == |ms|
    ensures LoadsTo(m, p + 4, targets, |ms|, r, q)
    ensures Arrived(m, r, targets, ms)
  {
    ImageParts(m, kernel, ms, start, p, q);
    r := LoadAll(m, p + 4, targets, ms, |ms|, q);
  }
}
