/**
 Creating a file in a BMFS directory: 64 records, of which those before the
 first End count.  The search for room runs over a copy that qsort has ordered
 by starting block.  All block numbers are unsigned 64-bit.
 */
module Bmfs {
  import opened Common
  import opened Words

  const ENTRIES: nat := 64
  const MAX_NAME: nat := 31          // FileName holds 32 chars, the last one NUL

  datatype Slot =
    | End
    | Deleted(start: Word, reserved: Word)
    | File(name: string, start: Word, reserved: Word, size: Word)

  // ---- the search ----

  /** The search from record i of the sorted copy on; `last` is num_blocks - 1. */
  function SearchFrom(S: seq<Slot>, last: Word, blocks: Word, i: nat, prevEnd: Word): Word
    requires i <= |S| && End !in S
    decreases |S| - i
  {
    var thisStart := if i == |S| || S[i].Deleted? then last else S[i].start;
    if Minus(thisStart, prevEnd) >= blocks then prevEnd
    else if i == |S| then 0
    else SearchFrom(S, last, blocks, i + 1, Plus(S[i].start, S[i].reserved))
  }

  /** new_file_start, or 0 if the search fails. */
  function Search(S: seq<Slot>, last: Word, blocks: Word): Word
    requires End !in S
  {
    SearchFrom(S, last, blocks, 0, 1)
  }

  // ---- what a directory should look like ----

  /** A file in blocks 1 to last - 1. */
  predicate InRange(x: Slot, last: int) {
    x.File? && 1 <= x.start && x.start + x.reserved <= last
  }

  ghost predicate AllInRange(D: seq<Slot>, last: int) {
    forall i {:trigger D[i]} | 0 <= i < |D| :: InRange(D[i], last)
  }

  predicate ApartAt(D: seq<Slot>, i: int, j: int) {
    0 <= i < |D| && 0 <= j < |D| && i != j && D[i].File? && D[j].File? ==>
      Apart(D[i].start, D[i].reserved, D[j].start, D[j].reserved)
  }

  ghost predicate Disjoint(D: seq<Slot>) {
    forall i, j {:trigger ApartAt(D, i, j)} :: ApartAt(D, i, j)
  }

  /** Every record ends where the next one starts, or before. */
  predicate InOrder(S: seq<Slot>, i: int) {
    0 <= i && i + 1 < |S| && S[i].File? && S[i + 1].File? ==> S[i].start + S[i].reserved <= S[i + 1].start
  }

  ghost predicate Ordered(S: seq<Slot>) {
    forall i {:trigger InOrder(S, i)} :: InOrder(S, i)
  }

  /** Room for the new file: inside the data blocks and apart from every file. */
  ghost predicate Fits(D: seq<Slot>, last: int, p: int, blocks: int) {
    && 1 <= p && p + blocks <= last
    && forall i {:trigger D[i]} | 0 <= i < |D| && D[i].File? :: Apart(p, blocks, D[i].start, D[i].reserved)
  }

  // ---- the search on ordered records ----

  lemma {:induction false} EndsBefore(S: seq<Slot>, last: Word, i: nat, j: nat)
    requires AllInRange(S, last) && Ordered(S) && i < j < |S|
    ensures S[i].start + S[i].reserved <= S[j].start
    decreases j
  {
    assert InOrder(S, j - 1);
    if i < j - 1 {
      EndsBefore(S, last, i, j - 1);
    }
  }

  function EndOf(S: seq<Slot>, i: nat): int
    requires i <= |S| && (i > 0 ==> S[i - 1].File?)
  {
    if i == 0 then 1 else S[i - 1].start + S[i - 1].reserved
  }

  lemma EndOfBetween(S: seq<Slot>, last: Word, i: nat)
    requires AllInRange(S, last) && Ordered(S) && i <= |S| && last >= 1
    ensures 1 <= EndOf(S, i) <= (if i < |S| then S[i].start else last) <= last
  {
    assert InOrder(S, i - 1);
  }

  /** The gap before record i is where the search says it is. */
  lemma GapFits(S: seq<Slot>, last: Word, i: nat, blocks: Word)
    requires AllInRange(S, last) && Ordered(S) && i <= |S| && last >= 1
    requires (if i < |S| then S[i].start else last) - EndOf(S, i) >= blocks
    ensures Fits(S, last, EndOf(S, i), blocks)
  {
    EndOfBetween(S, last, i);
    forall j | 0 <= j < |S| ensures Apart(EndOf(S, i), blocks, S[j].start, S[j].reserved) {
      if j < i - 1 {
        EndsBefore(S, last, j, i - 1);
      } else if j > i {
        EndsBefore(S, last, i, j);
      }
    }
  }

  lemma {:induction false} SearchFromFits(S: seq<Slot>, last: Word, blocks: Word, i: nat)
    requires AllInRange(S, last) && Ordered(S) && i <= |S| && last >= 1 && End !in S
    ensures 0 <= EndOf(S, i) < TWO_64
    ensures var r := SearchFrom(S, last, blocks, i, EndOf(S, i)); r != 0 ==> Fits(S, last, r, blocks)
    decreases |S| - i
  {
    EndOfBetween(S, last, i);
    var thisStart := if i == |S| then last else S[i].start;
    if thisStart - EndOf(S, i) >= blocks {
      GapFits(S, last, i, blocks);
    } else if i < |S| {
      EndOfBetween(S, last, i + 1);
      SearchFromFits(S, last, blocks, i + 1);
    }
  }

  /** From record i on, no room begins before the one found. */
  lemma {:induction false} SearchFromFirst(S: seq<Slot>, last: Word, blocks: Word, i: nat, p: int)
    requires AllInRange(S, last) && Ordered(S) && i <= |S| && last >= 1 && End !in S
    requires 0 <= EndOf(S, i) < TWO_64
    requires EndOf(S, i) <= p && Fits(S, last, p, blocks)
    ensures 0 != SearchFrom(S, last, blocks, i, EndOf(S, i)) <= p
    decreases |S| - i
  {
    EndOfBetween(S, last, i);
    if i < |S| {
      EndOfBetween(S, last, i + 1);
      if S[i].start + S[i].reserved <= p {
        SearchFromFirst(S, last, blocks, i + 1, p);
      } else {
        assert Apart(p, blocks, S[i].start, S[i].reserved);
      }
    }
  }

  /** On ordered records the search finds the first room there is, exactly when there is some. */
  lemma SearchIsExact(S: seq<Slot>, last: Word, blocks: Word, p: int)
    requires AllInRange(S, last) && Ordered(S) && last >= 1 && End !in S
    ensures var r := Search(S, last, blocks);
            && (r != 0 ==> Fits(S, last, r, blocks))
            && (Fits(S, last, p, blocks) ==> 0 != r <= p)
  {
    SearchFromFits(S, last, blocks, 0);
    if Fits(S, last, p, blocks) {
      SearchFromFirst(S, last, blocks, 0, p);
    }
  }

  // ---- and on records that are not ordered ----

  /** The first record that starts before the one in front of it ends. */
  lemma {:induction false} FirstDisorder(S: seq<Slot>, i: nat) returns (k: nat)
    requires !InOrder(S, i)
    ensures k <= i && !InOrder(S, k) && forall j | 0 <= j < k :: InOrder(S, j)
  {
    k := 0;
    while InOrder(S, k)
      invariant k <= i && forall j | 0 <= j < k :: InOrder(S, j)
      decreases i - k
    {
      k := k + 1;
    }
  }

  /** Up to record k + 1 no gap has `last` blocks; there the difference wraps around and looks huge. */
  lemma {:induction false} SearchFallsFor(S: seq<Slot>, last: Word, i: nat, k: nat)
    requires AllInRange(S, last) && End !in S && 1 <= last < TWO_31
    requires i <= k + 1 < |S| && !InOrder(S, k) && forall j | 0 <= j < k :: InOrder(S, j)
    ensures 1 <= EndOf(S, i) <= last && EndOf(S, k + 1) >= 1
    ensures SearchFrom(S, last, last, i, EndOf(S, i)) == EndOf(S, k + 1)
    decreases k + 1 - i
  {
    assert InRange(S[k], last) && InRange(S[k + 1], last);
    if i > 0 {
      assert InRange(S[i - 1], last);
    }
    if i <= k {
      assert InOrder(S, i - 1) && InRange(S[i], last);
      assert Minus(S[i].start, EndOf(S, i)) < last;
      SearchFallsFor(S, last, i + 1, k);
    } else {
      assert Minus(S[k + 1].start, EndOf(S, k + 1)) >= last;
    }
  }

  /**
   The search is right for every request exactly when the records are ordered:
   otherwise some request is given blocks it must not have.
   */
  lemma SafeExactlyWhenOrdered(S: seq<Slot>, last: Word)
    requires AllInRange(S, last) && End !in S && 1 <= last < TWO_31
    ensures Ordered(S) <==> forall blocks: Word :: Search(S, last, blocks) != 0 ==> Fits(S, last, Search(S, last, blocks), blocks)
  {
    if Ordered(S) {
      forall blocks: Word ensures Search(S, last, blocks) != 0 ==> Fits(S, last, Search(S, last, blocks), blocks) {
        SearchIsExact(S, last, blocks, 0);
      }
    } else {
      var i :| !InOrder(S, i);
      var k := FirstDisorder(S, i);
      SearchFallsFor(S, last, 0, k);
      assert Search(S, last, last) != 0 && !Fits(S, last, Search(S, last, last), last);
    }
  }

  // ---- qsort with StartingBlockCmp ----

  function StartingBlockCmp(a: Slot, b: Slot): int
    requires !a.End? && !b.End?
  {
    if a.Deleted? then 1
    else if b.Deleted? then -1
    else Int32(Minus(a.start, b.start))
  }

  /** Cutting the 64-bit difference to an int does no harm on a disk with fewer than 2^31 blocks. */
  lemma CmpComparesStarts(a: Slot, b: Slot, last: Word)
    requires InRange(a, last) && InRange(b, last) && last < TWO_31
    ensures StartingBlockCmp(a, b) == a.start - b.start
  {
  }

  predicate NotAfter(S: seq<Slot>, i: int) {
    0 <= i && i + 1 < |S| && !S[i].End? && !S[i + 1].End? ==> StartingBlockCmp(S[i], S[i + 1]) <= 0
  }

  predicate Goes(D: seq<Slot>, S: seq<Slot>, to: seq<nat>, from: seq<nat>, i: int) {
    0 <= i < |D| && |D| == |S| == |to| == |from| ==>
      && to[i] < |D| && from[i] < |D|
      && D[i] == S[to[i]] && S[i] == D[from[i]]
      && from[to[i]] == i && to[from[i]] == i
  }

  /** S is what some qsort can make of D: the same records, moved by `to`, none after its successor. */
  ghost predicate Sorts(D: seq<Slot>, S: seq<Slot>, to: seq<nat>, from: seq<nat>) {
    && |D| == |S| == |to| == |from|
    && (forall i {:trigger Goes(D, S, to, from, i)} :: Goes(D, S, to, from, i))
    && (forall i {:trigger NotAfter(S, i)} :: NotAfter(S, i))
  }

  ghost predicate NonEmpty(D: seq<Slot>) {
    forall i {:trigger D[i]} | 0 <= i < |D| && D[i].File? :: D[i].reserved > 0
  }

  lemma SortingKeepsRange(D: seq<Slot>, S: seq<Slot>, to: seq<nat>, from: seq<nat>, last: int)
    requires Sorts(D, S, to, from) && AllInRange(D, last)
    ensures AllInRange(S, last)
  {
    forall i | 0 <= i < |S| ensures InRange(S[i], last) {
      assert Goes(D, S, to, from, i);
    }
  }

  lemma SortingKeepsDisjoint(D: seq<Slot>, S: seq<Slot>, to: seq<nat>, from: seq<nat>)
    requires Sorts(D, S, to, from) && Disjoint(D)
    ensures Disjoint(S)
  {
    forall i, j ensures ApartAt(S, i, j) {
      assert Goes(D, S, to, from, i) && Goes(D, S, to, from, j);
      if 0 <= i < |S| && 0 <= j < |S| {
        assert ApartAt(D, from[i], from[j]);
      }
    }
  }

  lemma SortingKeepsNonEmpty(D: seq<Slot>, S: seq<Slot>, to: seq<nat>, from: seq<nat>)
    requires Sorts(D, S, to, from) && NonEmpty(D)
    ensures NonEmpty(S)
  {
    forall i | 0 <= i < |S| && S[i].File? ensures S[i].reserved > 0 {
      assert Goes(D, S, to, from, i);
    }
  }

  lemma SortingKeepsFit(D: seq<Slot>, S: seq<Slot>, to: seq<nat>, from: seq<nat>, last: int, p: int, blocks: int)
    requires Sorts(D, S, to, from)
    ensures Fits(S, last, p, blocks) <==> Fits(D, last, p, blocks)
  {
    if Fits(S, last, p, blocks) {
      forall i | 0 <= i < |D| && D[i].File? ensures Apart(p, blocks, D[i].start, D[i].reserved) {
        assert Goes(D, S, to, from, i);
        assert S[to[i]].File?;
      }
    }
    if Fits(D, last, p, blocks) {
      forall i | 0 <= i < |S| && S[i].File? ensures Apart(p, blocks, S[i].start, S[i].reserved) {
        assert Goes(D, S, to, from, i);
        assert D[from[i]].File?;
      }
    }
  }

  /** A non-empty record directly before one with the same starting block. */
  predicate SharesStart(S: seq<Slot>, i: int) {
    0 <= i && i + 1 < |S| && S[i].File? && S[i + 1].File? && S[i].start == S[i + 1].start && S[i].reserved > 0
  }

  /** For disjoint files, the order qsort made is the one the search needs unless an empty file interferes. */
  lemma OrderedUnlessShared(S: seq<Slot>, last: Word)
    requires AllInRange(S, last) && Disjoint(S) && last < TWO_31
    requires forall i {:trigger NotAfter(S, i)} :: NotAfter(S, i)
    ensures Ordered(S) <==> forall i :: !SharesStart(S, i)
  {
    forall i ensures InOrder(S, i) <==> !SharesStart(S, i) {
      assert NotAfter(S, i) && ApartAt(S, i, i + 1);
      if 0 <= i && i + 1 < |S| {
        CmpComparesStarts(S[i], S[i + 1], last);
      }
    }
  }

  lemma NonEmptyIsOrdered(S: seq<Slot>, last: Word)
    requires AllInRange(S, last) && Disjoint(S) && NonEmpty(S) && last < TWO_31
    requires forall i {:trigger NotAfter(S, i)} :: NotAfter(S, i)
    ensures Ordered(S)
  {
    OrderedUnlessShared(S, last);
    forall i ensures !SharesStart(S, i) {
      assert ApartAt(S, i, i + 1);
    }
  }

  /** One empty file is enough: two blocks asked for are taken from a file that has them. */
  lemma AnEmptyFileMisleads(S: seq<Slot>, last: Word)
    requires |S| == 3 && S[0].File? && S[1].File? && S[2].File? && 5 <= last < TWO_31
    requires S[0].start == S[1].start == 1 && S[2].start == 3
    requires S[0].reserved == S[2].reserved == 2 && S[1].reserved == 0
    ensures AllInRange(S, last) && Disjoint(S) && forall i {:trigger NotAfter(S, i)} :: NotAfter(S, i)
    ensures Search(S, last, 2) == 3 && !Fits(S, last, 3, 2)
  {
    forall i ensures NotAfter(S, i) {
      if i == 0 || i == 1 {
        CmpComparesStarts(S[i], S[i + 1], last);
      }
    }
    assert !Apart(3, 2, S[2].start, S[2].reserved);
    assert SearchFrom(S, last, 2, 1, 3) == 3;
  }

  // ---- the directory ----

  /** The first End from i on. */
  function FirstEnd(D: seq<Slot>, i: nat): (n: nat)
    requires i <= |D|
    ensures i <= n <= |D| && (n < |D| ==> D[n].End?)
    ensures forall j | i <= j < n :: !D[j].End?
    decreases |D| - i
  {
    if i < |D| && !D[i].End? then FirstEnd(D, i + 1) else i
  }

  /** The first record from i on that is not a file. */
  function FirstGap(D: seq<Slot>, i: nat): (n: nat)
    requires i <= |D|
    ensures i <= n <= |D| && (n < |D| ==> !D[n].File?)
    ensures forall j | i <= j < n :: D[j].File?
    decreases |D| - i
  {
    if i < |D| && D[i].File? then FirstGap(D, i + 1) else i
  }

  /** num_used_entries: a directory without End counts as empty. */
  function UsedEntries(D: seq<Slot>): (n: nat)
    ensures n <= |D| && forall j | 0 <= j < n :: !D[j].End?
  {
    var n := FirstEnd(D, 0);
    if n == |D| then 0 else n
  }

  predicate Has(D: seq<Slot>, name: string) {
    exists i :: 0 <= i < FirstEnd(D, 0) && D[i].File? && D[i].name == name
  }

  datatype Outcome = Exists | NoEntry | NoRoom | Created(start: Word)

  /** maxsize in MiB, rounded up to whole 2 MiB blocks; the largest odd value wraps to 0. */
  function Blocks(maxsize: Word): (b: Word)
    ensures maxsize != TWO_64 - 1 ==> b == (maxsize + 1) / 2
    ensures b == 0 <==> maxsize == 0 || maxsize == TWO_64 - 1
  {
    (if maxsize % 2 != 0 then Plus(maxsize, 1) else maxsize) / 2
  }

  function Decide(D: seq<Slot>, S: seq<Slot>, last: Word, name: string, maxsize: Word): Outcome
    requires End !in S
  {
    if Has(D, name) then Exists
    else if FirstGap(D, 0) == |D| then NoEntry
    else
      var p := Search(S, last, Blocks(maxsize));
      if p == 0 then NoRoom else Created(p)
  }

  /** The directory with the new record, and with the End mark that it may have overwritten moved on. */
  function WithFile(D: seq<Slot>, f: Slot): seq<Slot>
    requires FirstGap(D, 0) < |D|
  {
    var k := FirstGap(D, 0);
    var E := D[k := f];
    if k == UsedEntries(D) && k + 1 < |D| then E[k + 1 := End] else E
  }

  function After(D: seq<Slot>, S: seq<Slot>, last: Word, name: string, maxsize: Word): seq<Slot>
    requires End !in S
  {
    match Decide(D, S, last, name, maxsize)
    case Created(p) => WithFile(D, File(name, p, Blocks(maxsize), 0))
    case _ => D
  }

  /** Nothing but files up to the End mark, if there is one. */
  ghost predicate Terminated(D: seq<Slot>) {
    |D| == ENTRIES && FirstGap(D, 0) == FirstEnd(D, 0)
  }

  function Files(D: seq<Slot>): seq<Slot> {
    D[..FirstGap(D, 0)]
  }

  lemma {:induction false} FirstEndIs(D: seq<Slot>, i: nat, n: nat)
    requires i <= n <= |D| && (n < |D| ==> D[n].End?)
    requires forall j | i <= j < n :: !D[j].End?
    ensures FirstEnd(D, i) == n
    decreases n - i
  {
    if i < n {
      FirstEndIs(D, i + 1, n);
    }
  }

  /** Writing the record appends it to the files and keeps the directory terminated. */
  lemma WithFileAppends(D: seq<Slot>, f: Slot)
    requires Terminated(D) && FirstGap(D, 0) < |D| && f.File?
    ensures Terminated(WithFile(D, f)) && Files(WithFile(D, f)) == Files(D) + [f]
  {
    var E, n := WithFile(D, f), FirstGap(D, 0);
    assert forall j | 0 <= j < n + 1 :: E[j].File?;
    FirstEndIs(E, 0, n + 1);
  }

  lemma AppendKeepsDisjoint(F: seq<Slot>, last: int, f: Slot)
    requires Disjoint(F) && f.File? && Fits(F, last, f.start, f.reserved)
    ensures Disjoint(F + [f])
  {
    var G := F + [f];
    forall i, j ensures ApartAt(G, i, j) {
      assert ApartAt(F, i, j);
    }
  }

  /** The directory of a disk whose files are disjoint and in the data area. */
  ghost predicate Sound(D: seq<Slot>, last: int) {
    Terminated(D) && AllInRange(Files(D), last) && Disjoint(Files(D))
  }

  ghost predicate Room(D: seq<Slot>, last: int, blocks: int) {
    exists p :: Fits(Files(D), last, p, blocks)
  }

  /** What the search finds on a sound directory whose sorted copy is ordered. */
  lemma SearchOnDirectory(D: seq<Slot>, S: seq<Slot>, to: seq<nat>, from: seq<nat>, last: Word, blocks: Word)
    requires Sound(D, last) && Ordered(S) && 1 <= last < TWO_31 && FirstGap(D, 0) < |D|
    requires Sorts(D[..UsedEntries(D)], S, to, from) && End !in S
    ensures var p := Search(S, last, blocks);
            && (p != 0 ==> Fits(Files(D), last, p, blocks))
            && (p == 0 <==> !Room(D, last, blocks))
            && (forall q | Fits(Files(D), last, q, blocks) :: p <= q)
  {
    var F := Files(D);
    var p := Search(S, last, blocks);
    SortingKeepsRange(F, S, to, from, last);
    SearchIsExact(S, last, blocks, p);
    SortingKeepsFit(F, S, to, from, last, p, blocks);
    forall q | Fits(F, last, q, blocks) ensures 0 != p <= q {
      SearchIsExact(S, last, blocks, q);
      SortingKeepsFit(F, S, to, from, last, q, blocks);
    }
  }

  /**
   create on a sound directory whose sorted copy is ordered: the new file gets
   the first blocks that are free for it, the directory stays sound, and a refusal means that there
   is no free record or no room.
   */
  lemma CreateKeepsDirectory(D: seq<Slot>, S: seq<Slot>, to: seq<nat>, from: seq<nat>, last: Word, name: string, maxsize: Word)
    requires Sound(D, last) && Ordered(S) && 1 <= last < TWO_31
    requires Sorts(D[..UsedEntries(D)], S, to, from) && End !in S
    ensures var r, E := Decide(D, S, last, name, maxsize), After(D, S, last, name, maxsize);
            && Sound(E, last) && (NonEmpty(Files(D)) && Blocks(maxsize) > 0 ==> NonEmpty(Files(E)))
            && (r == NoEntry <==> !Has(D, name) && |Files(D)| == ENTRIES)
            && (r == NoRoom <==> !Has(D, name) && |Files(D)| < ENTRIES && !Room(D, last, Blocks(maxsize)))
            && (r == Exists <==> Has(D, name))
            && (r.Created? ==>
                  && Fits(Files(D), last, r.start, Blocks(maxsize))
                  && (forall q | Fits(Files(D), last, q, Blocks(maxsize)) :: r.start <= q)
                  && Files(E) == Files(D) + [File(name, r.start, Blocks(maxsize), 0)])
            && (!r.Created? ==> E == D)
  {
    var r, blocks := Decide(D, S, last, name, maxsize), Blocks(maxsize);
    if !Has(D, name) && FirstGap(D, 0) < |D| {
      SearchOnDirectory(D, S, to, from, last, blocks);
      if r.Created? {
        var f := File(name, r.start, blocks, 0);
        WithFileAppends(D, f);
        AppendKeepsDisjoint(Files(D), last, f);
      }
    }
  }

  /** A request for as many blocks as the disk has, on a copy that is not ordered, is granted. */
  lemma GreedyRequestSpoils(D: seq<Slot>, S: seq<Slot>, to: seq<nat>, from: seq<nat>, last: Word, name: string)
    requires Sound(D, last) && !Ordered(S) && 1 <= last < TWO_31
    requires Sorts(D[..UsedEntries(D)], S, to, from) && End !in S
    requires !Has(D, name) && |Files(D)| < ENTRIES
    ensures !Sound(After(D, S, last, name, 2 * last), last)
  {
    var F := Files(D);
    SortingKeepsRange(F, S, to, from, last);
    var i :| !InOrder(S, i);
    var k := FirstDisorder(S, i);
    SearchFallsFor(S, last, 0, k);
    var p := Search(S, last, last);
    var f := File(name, p, last, 0);
    assert Blocks(2 * last) == last;
    WithFileAppends(D, f);
    assert (F + [f])[|F|] == f && !InRange(f, last);
  }

  /** For one order of the copy: create is right for every size exactly when that order is one of ends before starts. */
  lemma CreateRightExactlyWhenOrdered(D: seq<Slot>, S: seq<Slot>, to: seq<nat>, from: seq<nat>, last: Word, name: string)
    requires Sound(D, last) && 1 <= last < TWO_31
    requires Sorts(D[..UsedEntries(D)], S, to, from) && End !in S
    requires !Has(D, name) && |Files(D)| < ENTRIES
    ensures Ordered(S) <==> forall maxsize: Word :: Sound(After(D, S, last, name, maxsize), last)
  {
    if Ordered(S) {
      forall maxsize: Word ensures Sound(After(D, S, last, name, maxsize), last) {
        CreateKeepsDirectory(D, S, to, from, last, name, maxsize);
      }
    } else {
      GreedyRequestSpoils(D, S, to, from, last, name);
      var size: Word := 2 * last;
      assert !Sound(After(D, S, last, name, size), last);
    }
  }

  // ---- the code ----

  class Disk {
    const Directory: array<Slot>
    const disksize: nat        // in MiB

    constructor (size: nat)
      requires 6 <= size < TWO_32
      ensures Valid() && fresh(Directory) && disksize == size && forall i | 0 <= i < ENTRIES :: Directory[i] == End
    {
      disksize := size;
      Directory := new Slot[ENTRIES](_ => End);
    }

    ghost predicate Valid()
      reads this
    {
      Directory.Length == ENTRIES && 6 <= disksize < TWO_32
    }

    /** num_blocks - 1 */
    function Last(): Word
      reads this
      requires Valid()
    {
      disksize / 2 - 1
    }

    /** findfile */
    method FindFile(filename: string) returns (found: bool, slot: nat)
      requires Valid()
      ensures found <==> Has(Directory[..], filename)
      ensures found ==> slot < ENTRIES && Directory[slot].File? && Directory[slot].name == filename
    {
      slot := 0;
      while slot < ENTRIES && !Directory[slot].End?
        invariant slot <= ENTRIES
        invariant FirstEnd(Directory[..], slot) == FirstEnd(Directory[..], 0)
        invariant forall i | 0 <= i < slot :: !(Directory[i].File? && Directory[i].name == filename)
      {
        if Directory[slot].File? && Directory[slot].name == filename {
          return true, slot;
        }
        slot := slot + 1;
      }
      return false, slot;
    }

    /** The count of records in use and the first one free for the new file, or -1. */
    method CountEntries() returns (used: nat, free: int)
      requires Valid()
      ensures used == UsedEntries(Directory[..])
      ensures free == if FirstGap(Directory[..], 0) == ENTRIES then -1 else FirstGap(Directory[..], 0)
    {
      used, free := 0, -1;
      var i := 0;
      while i < ENTRIES
        invariant i <= ENTRIES && used == 0
        invariant FirstEnd(Directory[..], i) == FirstEnd(Directory[..], 0)
        invariant free == -1 ==> FirstGap(Directory[..], i) == FirstGap(Directory[..], 0)
        invariant free != -1 ==> free == FirstGap(Directory[..], 0) < ENTRIES
      {
        if Directory[i].End? {
          used := i;
          if free == -1 {
            free := i;
          }
          break;
        } else if Directory[i].Deleted? {
          if free == -1 {
            free := i;
          }
        }
        i := i + 1;
      }
    }

    /** The loop over the sorted copy. */
    method FindRoom(sorted: seq<Slot>, blocks: Word) returns (newStart: Word)
      requires Valid() && End !in sorted
      ensures newStart == Search(sorted, Last(), blocks)
    {
      newStart := 0;
      var prevEnd: Word := 1;
      var i := 0;
      while i < |sorted| + 1
        invariant i <= |sorted| + 1 && newStart == 0
        invariant Search(sorted, Last(), blocks) ==
                  if i <= |sorted| then SearchFrom(sorted, Last(), blocks, i, prevEnd) else 0
      {
        var thisStart := if i == |sorted| || sorted[i].Deleted? then Last() else sorted[i].start;
        if Minus(thisStart, prevEnd) >= blocks {
          newStart := prevEnd;
          break;
        }
        if i < |sorted| {
          prevEnd := Plus(sorted[i].start, sorted[i].reserved);
        }
        i := i + 1;
      }
    }

    /** create; sorted is what qsort makes of the records in use. */
    method Create(filename: string, maxsize: Word, sorted: seq<Slot>, ghost to: seq<nat>, ghost from: seq<nat>)
      returns (r: Outcome)
      requires Valid() && 0 < |filename| <= MAX_NAME && End !in sorted
      requires Sorts(Directory[..UsedEntries(Directory[..])], sorted, to, from)
      modifies Directory
      ensures r == Decide(old(Directory[..]), sorted, Last(), filename, maxsize)
      ensures Directory[..] == After(old(Directory[..]), sorted, Last(), filename, maxsize)
    {
      var size := if maxsize % 2 != 0 then Plus(maxsize, 1) else maxsize;
      var found, _ := FindFile(filename);
      if found {
        return Exists;
      }
      var blocks := size / 2;
      var used, free := CountEntries();
      if free == -1 {
        return NoEntry;
      }
      var start := FindRoom(sorted, blocks);
      if start == 0 {
        return NoRoom;
      }
      Directory[free] := File(filename, start, blocks, 0);
      if free == used && used + 1 < ENTRIES {
        Directory[used + 1] := End;
      }
      return Created(start);
    }
  }
}
