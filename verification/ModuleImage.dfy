/**
 The packed image: what the module packer writes behind the kernel, and how
 the kernel takes it apart again.  Numbers are stored with the low byte first.
 */
module ModuleImage {
  import opened Common
  import opened Words

  const BUFFER_SIZE: nat := 128

  type byte = x: int | 0 <= x < 256

  // ---- the format ----

  /** The four bytes of a uint32_t. */
  function Word32(n: int): (w: seq<byte>)
    ensures |w| == 4
  {
    [n % 256, n / 256 % 256, n / 0x1_0000 % 256, n / 0x100_0000 % 256]
  }

  function Number32(w: seq<byte>): int
    requires |w| == 4
  {
    (w[0] as int) + 256 * (w[1] as int) + 0x1_0000 * (w[2] as int) + 0x100_0000 * (w[3] as int)
  }

  lemma WordRoundTrip(n: int)
    requires 0 <= n < TWO_32
    ensures Number32(Word32(n)) == n
  {
    var a, b, c := n / 256, n / 0x1_0000, n / 0x100_0000;
    assert a / 256 == b && b / 256 == c && c % 256 == c;
    assert n == a * 256 + n % 256 && a == b * 256 + a % 256 && b == c * 256 + b % 256;
  }

  /** The number that bytes stand for with the low one first. */
  function LowFirst(w: seq<byte>): int
    decreases |w|
  {
    if w == [] then 0 else (w[0] as int) + 256 * LowFirst(w[1..])
  }

  lemma LowFirstOf(w: seq<byte>)
    requires |w| == 4
    ensures Number32(w) == LowFirst(w)
  {
    var v := w[1..];
    var u := v[1..];
    assert u[0] == w[2] && u[1..][0] == w[3] && LowFirst(u[1..][1..]) == 0;
    assert LowFirst(u) == (w[2] as int) + 256 * (w[3] as int);
    assert LowFirst(v) == (w[1] as int) + 256 * LowFirst(u);
  }

  /** A number is stored with the low byte first, and read that way. */
  lemma LowByteFirst(n: int, w: seq<byte>)
    requires 0 <= n < TWO_32 && |w| == 4
    ensures LowFirst(Word32(n)) == n
    ensures Number32(w) == LowFirst(w)
  {
    WordRoundTrip(n);
    LowFirstOf(Word32(n));
    LowFirstOf(w);
  }

  /** Every module behind its size. */
  function Body(ms: seq<seq<byte>>): (b: seq<byte>)
    decreases |ms|
  {
    if ms == [] then [] else Word32(|ms[0]|) + ms[0] + Body(ms[1..])
  }

  function Payload(ms: seq<seq<byte>>): seq<byte> {
    Word32(|ms|) + Body(ms)
  }

  lemma BodyOfCons(m: seq<byte>, ms: seq<seq<byte>>)
    ensures Body([m] + ms) == Word32(|m|) + m + Body(ms)
  {
    var all := [m] + ms;
    assert all[0] == m && all[1..] == ms;
  }

  lemma Associative(a: seq<byte>, b: seq<byte>, c: seq<byte>)
    ensures a + (b + c) == (a + b) + c
  {
  }

  lemma {:induction false} BodyConcat(a: seq<seq<byte>>, b: seq<seq<byte>>)
    ensures Body(a + b) == Body(a) + Body(b)
    decreases |a|
  {
    if a == [] {
      assert a + b == b;
    } else {
      var m, rest := a[0], a[1..];
      BodyConcat(rest, b);
      BodyOfCons(m, rest);
      BodyOfCons(m, rest + b);
      assert a == [m] + rest && a + b == [m] + (rest + b);
      Associative(Word32(|m|) + m, Body(rest), Body(b));
    }
  }

  lemma BodyNext(ms: seq<seq<byte>>, i: nat)
    requires i < |ms|
    ensures Body(ms[..i + 1]) == Body(ms[..i]) + Word32(|ms[i]|) + ms[i]
  {
    assert ms[..i + 1] == ms[..i] + [ms[i]];
    BodyConcat(ms[..i], [ms[i]]);
    var one := [ms[i]];
    assert one[1..] == [] && Body(one[1..]) == [];
    assert Body(one) == Word32(|ms[i]|) + ms[i];
  }

  lemma BodyAt(ms: seq<seq<byte>>, i: nat)
    requires i < |ms|
    ensures Body(ms) == Body(ms[..i]) + (Word32(|ms[i]|) + ms[i]) + Body(ms[i + 1..])
  {
    var front, rest := ms[..i + 1], ms[i + 1..];
    BodyNext(ms, i);
    BodyConcat(front, rest);
    assert front + rest == ms;
    var a, b, c, d := Body(ms[..i]), Word32(|ms[i]|), ms[i], Body(rest);
    Regroup(a, b, c, d);
  }

  lemma Regroup(a: seq<byte>, b: seq<byte>, c: seq<byte>, d: seq<byte>)
    ensures (a + b + c) + d == a + (b + c) + d
  {
    assert a + b + c == a + (b + c);
  }

  predicate Small(ms: seq<seq<byte>>) {
    |ms| < TWO_32 && forall i {:trigger ms[i]} | 0 <= i < |ms| :: |ms[i]| < TWO_32
  }

  lemma {:induction false} BodyIsUnambiguous(a: seq<seq<byte>>, b: seq<seq<byte>>)
    requires Small(a) && Small(b) && |a| == |b| && Body(a) == Body(b)
    ensures a == b
    decreases |a|
  {
    if a != [] {
      var x, y := Body(a), Body(b);
      assert x[..4] == Word32(|a[0]|) && y[..4] == Word32(|b[0]|);
      WordRoundTrip(|a[0]|);
      WordRoundTrip(|b[0]|);
      var n := 4 + |a[0]|;
      assert x[4..n] == a[0] && y[4..n] == b[0];
      assert x[n..] == Body(a[1..]) && y[n..] == Body(b[1..]);
      BodyIsUnambiguous(a[1..], b[1..]);
      assert a == [a[0]] + a[1..] && b == [b[0]] + b[1..];
    }
  }

  /** No two lists of modules make the same payload. */
  lemma PayloadIsUnambiguous(a: seq<seq<byte>>, b: seq<seq<byte>>)
    requires Small(a) && Small(b) && Payload(a) == Payload(b)
    ensures a == b
  {
    var x, y := Payload(a), Payload(b);
    assert x[..4] == Word32(|a|) && y[..4] == Word32(|b|);
    WordRoundTrip(|a|);
    WordRoundTrip(|b|);
    assert x[4..] == Body(a) && y[4..] == Body(b);
    BodyIsUnambiguous(a, b);
  }

  // ---- the writer ----

  class OutputFile {
    var contents: seq<byte>

    constructor ()
      ensures contents == []
    {
      contents := [];
    }

    method Write(bytes: seq<byte>)
      modifies this
      ensures contents == old(contents) + bytes
    {
      contents := contents + bytes;
    }
  }

  /** write_file: buffers of BUFFER_SIZE bytes until a read comes short. */
  method WriteFile(target: OutputFile, source: seq<byte>)
    modifies target
    ensures target.contents == old(target.contents) + source
  {
    var pos, eof := 0, false;
    while !eof
      invariant pos <= |source| && (eof ==> pos == |source|)
      invariant target.contents == old(target.contents) + source[..pos]
      decreases |source| - pos, !eof
    {
      var read := if |source| - pos < BUFFER_SIZE then |source| - pos else BUFFER_SIZE;
      target.Write(source[pos..pos + read]);
      assert source[..pos + read] == source[..pos] + source[pos..pos + read];
      pos := pos + read;
      eof := read < BUFFER_SIZE;
    }
    assert source[..pos] == source;
  }

  /** buildImage: the first file is the kernel. */
  method BuildImage(files: seq<seq<byte>>, target: OutputFile)
    requires |files| >= 1 && target.contents == []
    modifies target
    ensures target.contents == files[0] + Payload(files[1..])
  {
    WriteFile(target, files[0]);
    target.Write(Word32(|files| - 1));
    var i := 1;
    while i < |files|
      invariant 1 <= i <= |files|
      invariant target.contents == files[0] + Word32(|files| - 1) + Body(files[1..][..i - 1])
    {
      BodyNext(files[1..], i - 1);
      target.Write(Word32(|files[i]|));
      WriteFile(target, files[i]);
      i := i + 1;
    }
    assert files[1..][..i - 1] == files[1..];
  }

  // ---- the reader ----

  /** The bytes bs stand in memory at address a. */
  ghost predicate Holds(mem: seq<byte>, a: int, bs: seq<byte>) {
    0 <= a && a + |bs| <= |mem| && mem[a..a + |bs|] == bs
  }

  predicate TargetOk(start: int, ms: seq<seq<byte>>, targets: seq<nat>, size: int, i: int) {
    0 <= i < |ms| <= |targets| ==> targets[i] + |ms[i]| <= size && Apart(targets[i], |ms[i]|, start, |Payload(ms)|)
  }

  predicate TargetsApart(ms: seq<seq<byte>>, targets: seq<nat>, i: int, j: int) {
    0 <= i < j < |ms| <= |targets| ==> Apart(targets[i], |ms[i]|, targets[j], |ms[j]|)
  }

  /** One target per module, inside memory, disjoint from each other and from the payload. */
  ghost predicate GoodTargets(start: int, ms: seq<seq<byte>>, targets: seq<nat>, size: int) {
    && |targets| >= |ms|
    && (forall i {:trigger TargetOk(start, ms, targets, size, i)} :: TargetOk(start, ms, targets, size, i))
    && (forall i, j {:trigger TargetsApart(ms, targets, i, j)} :: TargetsApart(ms, targets, i, j))
  }

  /** Address x belongs to one of the first k targets. */
  predicate Target(ms: seq<seq<byte>>, targets: seq<nat>, k: int, x: int)
    requires |targets| >= |ms| >= k
  {
    exists i :: 0 <= i < k && targets[i] <= x < targets[i] + |ms[i]|
  }

  method ReadUint32(mem: array<byte>, address: nat) returns (result: int, next: nat)
    requires address + 4 <= mem.Length
    ensures result == Number32(mem[address..address + 4]) && next == address + 4
  {
    result := (mem[address] as int) + 256 * (mem[address + 1] as int)
              + 0x1_0000 * (mem[address + 2] as int) + 0x100_0000 * (mem[address + 3] as int);
    next := address + 4;
  }

  /** memcpy between areas that do not overlap. */
  method MemCopy(mem: array<byte>, target: nat, source: nat, n: nat)
    requires target + n <= mem.Length && source + n <= mem.Length && Apart(target, n, source, n)
    modifies mem
    ensures mem[target..target + n] == old(mem[source..source + n])
    ensures forall x | 0 <= x < mem.Length && !(target <= x < target + n) :: mem[x] == old(mem[x])
  {
    var i := 0;
    while i < n
      invariant 0 <= i <= n
      invariant forall x {:trigger mem[x]} | target <= x < target + i :: mem[x] == old(mem[source + (x - target)])
      invariant forall x {:trigger mem[x]} | 0 <= x < mem.Length && !(target <= x < target + i) :: mem[x] == old(mem[x])
    {
      mem[target + i] := mem[source + i];
      i := i + 1;
    }
  }

  method LoadModule(mem: array<byte>, module_: nat, target: nat, ghost m: seq<byte>) returns (next: nat)
    requires |m| < TWO_32 && Holds(mem[..], module_, Word32(|m|) + m)
    requires target + |m| <= mem.Length && Apart(target, |m|, module_, 4 + |m|)
    modifies mem
    ensures next == module_ + 4 + |m| && Holds(mem[..], target, m)
    ensures forall x | 0 <= x < mem.Length && !(target <= x < target + |m|) :: mem[x] == old(mem[x])
  {
    ghost var w := Word32(|m|) + m;
    assert mem[..][module_..module_ + |w|] == w;
    assert mem[module_..module_ + 4] == w[..4] == Word32(|m|);
    assert mem[module_ + 4..module_ + 4 + |m|] == w[4..] == m;
    WordRoundTrip(|m|);
    var moduleSize, cursor := ReadUint32(mem, module_);
    MemCopy(mem, target, cursor, moduleSize);
    assert mem[..][target..target + |m|] == mem[target..target + |m|];
    next := cursor + moduleSize;
  }

  /** What the loader has done after i modules. */
  ghost predicate LoadedUpTo(was: seq<byte>, mem: seq<byte>, ms: seq<seq<byte>>, targets: seq<nat>, i: nat)
    requires |targets| >= |ms| >= i
  {
    && |mem| == |was|
    && (forall j {:trigger targets[j]} | 0 <= j < i :: Holds(mem, targets[j], ms[j]))
    && (forall x {:trigger mem[x]} | 0 <= x < |mem| && !Target(ms, targets, i, x) :: mem[x] == was[x])
  }

  lemma PayloadStays(was: seq<byte>, mem: seq<byte>, start: nat, ms: seq<seq<byte>>, targets: seq<nat>, i: nat)
    requires GoodTargets(start, ms, targets, |was|) && Holds(was, start, Payload(ms)) && i <= |ms|
    requires LoadedUpTo(was, mem, ms, targets, i)
    ensures Holds(mem, start, Payload(ms))
  {
    forall x | start <= x < start + |Payload(ms)| ensures mem[x] == was[x] {
      forall j | 0 <= j < i ensures !(targets[j] <= x < targets[j] + |ms[j]|) {
        assert TargetOk(start, ms, targets, |was|, j);
      }
      assert !Target(ms, targets, i, x);
    }
    assert mem[start..start + |Payload(ms)|] == was[start..start + |Payload(ms)|];
  }

  lemma SliceOfSlice(s: seq<byte>, a: nat, n: nat, c: nat, m: nat)
    requires a + n <= |s| && c + m <= n
    ensures s[a..a + n][c..c + m] == s[a + c..a + c + m]
  {
    var x, y := s[a..a + n][c..c + m], s[a + c..a + c + m];
    assert |x| == |y|;
    forall k | 0 <= k < m ensures x[k] == y[k] {
      assert x[k] == s[a..a + n][c + k];
    }
  }

  lemma PartOfPayload(ms: seq<seq<byte>>, i: nat)
    requires i < |ms|
    ensures var c, w := 4 + |Body(ms[..i])|, Word32(|ms[i]|) + ms[i];
            c + |w| <= |Payload(ms)| && Payload(ms)[c..c + |w|] == w
  {
    BodyAt(ms, i);
    var w := Word32(|ms[i]|) + ms[i];
    var front := Word32(|ms|) + Body(ms[..i]);
    assert Payload(ms) == front + w + Body(ms[i + 1..]);
  }

  /** Where module i stands in memory. */
  lemma ModuleInPayload(mem: seq<byte>, start: nat, ms: seq<seq<byte>>, i: nat)
    requires Holds(mem, start, Payload(ms)) && i < |ms|
    ensures var c := start + 4 + |Body(ms[..i])|;
            Holds(mem, c, Word32(|ms[i]|) + ms[i]) && c + 4 + |ms[i]| <= start + |Payload(ms)|
  {
    PartOfPayload(ms, i);
    SliceOfSlice(mem, start, |Payload(ms)|, 4 + |Body(ms[..i])|, 4 + |ms[i]|);
  }

  lemma OneMoreLoaded(was: seq<byte>, mem: seq<byte>, mem': seq<byte>, start: nat, ms: seq<seq<byte>>, targets: seq<nat>, i: nat)
    requires GoodTargets(start, ms, targets, |was|) && i < |ms| && LoadedUpTo(was, mem, ms, targets, i)
    requires |mem'| == |mem| && Holds(mem', targets[i], ms[i])
    requires forall x {:trigger mem'[x]} | 0 <= x < |mem| && !(targets[i] <= x < targets[i] + |ms[i]|) :: mem'[x] == mem[x]
    ensures LoadedUpTo(was, mem', ms, targets, i + 1)
  {
    forall j | 0 <= j < i ensures Holds(mem', targets[j], ms[j]) {
      assert TargetsApart(ms, targets, j, i) && Holds(mem, targets[j], ms[j]);
      assert mem'[targets[j]..targets[j] + |ms[j]|] == mem[targets[j]..targets[j] + |ms[j]|];
    }
    forall x | 0 <= x < |mem'| && !Target(ms, targets, i + 1, x) ensures mem'[x] == was[x] {
      assert !Target(ms, targets, i, x);
    }
  }

  /** One turn of the loop of load_modules. */
  method LoadNext(mem: array<byte>, cursor: nat, targets: seq<nat>, i: nat,
                  ghost start: nat, ghost ms: seq<seq<byte>>, ghost was: seq<byte>) returns (next: nat)
    requires Small(ms) && Holds(was, start, Payload(ms)) && GoodTargets(start, ms, targets, |was|)
    requires i < |ms| && cursor == start + 4 + |Body(ms[..i])| && LoadedUpTo(was, mem[..], ms, targets, i)
    modifies mem
    ensures next == start + 4 + |Body(ms[..i + 1])| && LoadedUpTo(was, mem[..], ms, targets, i + 1)
  {
    ghost var before := mem[..];
    PayloadStays(was, before, start, ms, targets, i);
    ModuleInPayload(before, start, ms, i);
    BodyNext(ms, i);
    assert TargetOk(start, ms, targets, |was|, i);
    next := LoadModule(mem, cursor, targets[i], ms[i]);
    OneMoreLoaded(was, before, mem[..], start, ms, targets, i);
  }

  /**
   load_modules undoes the packer: started on the payload of ms, it leaves
   module i at target i and everything else as it was, and it stops where the
   image ends.
   */
  method LoadModules(mem: array<byte>, payloadStart: nat, targets: seq<nat>, ghost ms: seq<seq<byte>>) returns (cursor: nat)
    requires Small(ms) && Holds(mem[..], payloadStart, Payload(ms))
    requires GoodTargets(payloadStart, ms, targets, mem.Length)
    modifies mem
    ensures cursor == payloadStart + |Payload(ms)|
    ensures forall i {:trigger targets[i]} | 0 <= i < |ms| :: Holds(mem[..], targets[i], ms[i])
    ensures forall x | 0 <= x < mem.Length && !Target(ms, targets, |ms|, x) :: mem[x] == old(mem[x])
  {
    ghost var was := mem[..];
    assert mem[payloadStart..payloadStart + 4] == was[payloadStart..payloadStart + |Payload(ms)|][..4] == Word32(|ms|);
    WordRoundTrip(|ms|);
    var moduleCount;
    moduleCount, cursor := ReadUint32(mem, payloadStart);
    var i := 0;
    while i < moduleCount
      invariant 0 <= i <= moduleCount == |ms|
      invariant cursor == payloadStart + 4 + |Body(ms[..i])|
      invariant LoadedUpTo(was, mem[..], ms, targets, i)
    {
      cursor := LoadNext(mem, cursor, targets, i, payloadStart, ms, was);
      i := i + 1;
    }
    assert ms[..i] == ms;
  }

  /** In a loaded image the payload stands right behind the kernel, where the loader starts. */
  lemma PayloadFollowsKernel(mem: seq<byte>, base: nat, kernel: seq<byte>, ms: seq<seq<byte>>)
    requires Holds(mem, base, kernel + Payload(ms))
    ensures Holds(mem, base, kernel) && Holds(mem, base + |kernel|, Payload(ms))
  {
    var w := kernel + Payload(ms);
    SliceOfSlice(mem, base, |w|, 0, |kernel|);
    SliceOfSlice(mem, base, |w|, |kernel|, |Payload(ms)|);
    assert w[0..0 + |kernel|] == kernel && w[|kernel|..|kernel| + |Payload(ms)|] == Payload(ms);
  }

  /** The boot loader puts the image into memory as it is in the file. */
  method LoadImage(mem: array<byte>, base: nat, image: seq<byte>)
    requires base + |image| <= mem.Length
    modifies mem
    ensures Holds(mem[..], base, image)
    ensures forall x | 0 <= x < mem.Length && !(base <= x < base + |image|) :: mem[x] == old(mem[x])
  {
    var i := 0;
    while i < |image|
      invariant 0 <= i <= |image|
      invariant forall x {:trigger mem[x]} | base <= x < base + i :: mem[x] == image[x - base]
      invariant forall x {:trigger mem[x]} | 0 <= x < mem.Length && !(base <= x < base + i) :: mem[x] == old(mem[x])
    {
      mem[base + i] := image[i];
      i := i + 1;
    }
    assert mem[..][base..base + |image|] == image;
  }

  /**
   Writer and reader composed: the image the packer builds, loaded at `base`
   and taken apart behind the kernel, puts module i at target i, keeps the
   kernel if no target lies in it, and ends where the image ends.
   */
  method PackAndLoad(files: seq<seq<byte>>, mem: array<byte>, base: nat, targets: seq<nat>) returns (end: nat)
    requires |files| >= 1 && Small(files[1..])
    requires base + |files[0]| + |Payload(files[1..])| <= mem.Length
    requires GoodTargets(base + |files[0]|, files[1..], targets, mem.Length)
    modifies mem
    ensures end == base + |files[0]| + |Payload(files[1..])|
    ensures forall i {:trigger targets[i]} | 0 <= i < |files| - 1 :: Holds(mem[..], targets[i], files[i + 1])
    ensures forall x | base <= x < base + |files[0]| && !Target(files[1..], targets, |files| - 1, x) :: mem[x] == files[0][x - base]
  {
    var target := new OutputFile();
    BuildImage(files, target);
    ghost var ms := files[1..];
    LoadImage(mem, base, target.contents);
    PayloadFollowsKernel(mem[..], base, files[0], ms);
    ghost var loaded := mem[..];
    forall x | base <= x < base + |files[0]| ensures loaded[x] == files[0][x - base] {
      assert loaded[base..base + |files[0]|][x - base] == loaded[x];
    }
    end := LoadModules(mem, base + |files[0]|, targets, ms);
    forall i {:trigger targets[i]} | 0 <= i < |files| - 1 ensures Holds(mem[..], targets[i], files[i + 1]) {
      assert Holds(mem[..], targets[i], ms[i]);
    }
    forall x | base <= x < base + |files[0]| && !Target(ms, targets, |files| - 1, x) ensures mem[x] == files[0][x - base] {
      assert mem[x] == loaded[x];
    }
  }
}
