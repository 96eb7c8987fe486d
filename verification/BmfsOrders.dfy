/**
 Which directories create serves correctly whatever order qsort gives equal
 records: those on which no empty file shares its first block with a file that
 has blocks.
 */
module BmfsOrders {
  import opened Bmfs
  import opened Words

  /** An empty file starts where a non-empty one does. */
  ghost predicate Shares(F: seq<Slot>) {
    exists i, j :: SharesFirstBlock(F, i, j)
  }

  predicate SharesFirstBlock(F: seq<Slot>, i: int, j: int) {
    && 0 <= i < |F| && 0 <= j < |F| && F[i].File? && F[j].File?
    && F[i].start == F[j].start && F[i].reserved > 0 && F[j].reserved == 0
  }

  // ---- an order that puts an empty file last among those with its start ----

  function Key(x: Slot): int {
    if x.File? then 2 * x.start + (if x.reserved == 0 then 1 else 0) else 0
  }

  predicate KeyInOrder(S: seq<Slot>, i: int) {
    0 <= i && i + 1 < |S| ==> Key(S[i]) <= Key(S[i + 1])
  }

  ghost predicate ByKey(S: seq<Slot>) {
    forall i {:trigger KeyInOrder(S, i)} :: KeyInOrder(S, i)
  }

  lemma {:induction false} KeysGrow(S: seq<Slot>, i: nat, j: nat)
    requires ByKey(S) && i <= j < |S|
    ensures Key(S[i]) <= Key(S[j])
    decreases j
  {
    if i < j {
      assert KeyInOrder(S, j - 1);
      KeysGrow(S, i, j - 1);
    }
  }

  /** D moved to S by `to`, as in Sorts, whatever the order. */
  ghost predicate Moves(D: seq<Slot>, S: seq<Slot>, to: seq<nat>, from: seq<nat>) {
    && |D| == |S| == |to| == |from|
    && forall i {:trigger Goes(D, S, to, from, i)} :: Goes(D, S, to, from, i)
  }

  /** The first record with a greater key. */
  function Place(S: seq<Slot>, x: Slot, k: nat): (r: nat)
    requires k <= |S|
    ensures k <= r <= |S| && (r < |S| ==> Key(S[r]) > Key(x))
    ensures forall j | k <= j < r :: Key(S[j]) <= Key(x)
    decreases |S| - k
  {
    if k < |S| && Key(S[k]) <= Key(x) then Place(S, x, k + 1) else k
  }

  function Insert(S: seq<Slot>, k: nat, x: Slot): seq<Slot>
    requires k <= |S|
  {
    S[..k] + [x] + S[k..]
  }

  lemma InsertByKey(S: seq<Slot>, x: Slot)
    requires ByKey(S)
    ensures ByKey(Insert(S, Place(S, x, 0), x))
  {
    var k := Place(S, x, 0);
    var T := Insert(S, k, x);
    forall i ensures KeyInOrder(T, i) {
      assert KeyInOrder(S, i) && KeyInOrder(S, i - 1);
    }
  }

  lemma InsertMoves(D: seq<Slot>, S: seq<Slot>, to: seq<nat>, from: seq<nat>, k: nat, x: Slot) returns (to': seq<nat>, from': seq<nat>)
    requires Moves(D, S, to, from) && k <= |S|
    ensures Moves(D + [x], Insert(S, k, x), to', from')
  {
    var n := |D|;
    to' := seq(n, i requires 0 <= i < n => if to[i] < k then to[i] else to[i] + 1) + [k];
    from' := from[..k] + [n] + from[k..];
    var E, T := D + [x], Insert(S, k, x);
    forall i ensures Goes(E, T, to', from', i) {
      assert Goes(D, S, to, from, i) && Goes(D, S, to, from, i - 1);
    }
  }

  lemma {:induction false} SortByKey(D: seq<Slot>) returns (S: seq<Slot>, to: seq<nat>, from: seq<nat>)
    ensures Moves(D, S, to, from) && ByKey(S)
    decreases |D|
  {
    if D == [] {
      S, to, from := [], [], [];
    } else {
      var n := |D| - 1;
      S, to, from := SortByKey(D[..n]);
      var x := D[n];
      var k := Place(S, x, 0);
      InsertByKey(S, x);
      var to', from' := InsertMoves(D[..n], S, to, from, k, x);
      assert D[..n] + [x] == D;
      S, to, from := Insert(S, k, x), to', from';
    }
  }

  /** qsort accepts this order. */
  lemma ByKeySorts(F: seq<Slot>, S: seq<Slot>, to: seq<nat>, from: seq<nat>, last: Word)
    requires AllInRange(F, last) && last < TWO_31 && Moves(F, S, to, from) && ByKey(S)
    ensures Sorts(F, S, to, from) && End !in S
  {
    forall i | 0 <= i < |S| ensures InRange(S[i], last) {
      assert Goes(F, S, to, from, i);
    }
    forall i ensures NotAfter(S, i) {
      if 0 <= i && i + 1 < |S| {
        assert KeyInOrder(S, i);
        CmpComparesStarts(S[i], S[i + 1], last);
      }
    }
  }

  /** An empty file that shares its first block is sorted behind a file it shares it with. */
  lemma SharedIsDisordered(F: seq<Slot>, S: seq<Slot>, to: seq<nat>, from: seq<nat>, last: Word, i: nat, j: nat)
    requires AllInRange(F, last) && Moves(F, S, to, from) && ByKey(S) && SharesFirstBlock(F, i, j)
    ensures !Ordered(S)
  {
    assert Goes(F, S, to, from, i) && Goes(F, S, to, from, j);
    var a, b := to[i], to[j];
    if b <= a {
      KeysGrow(S, b, a);
    }
    KeysGrow(S, a, a + 1);
    KeysGrow(S, a + 1, b);
    assert Goes(F, S, to, from, a + 1) && InRange(F[from[a + 1]], last);
    assert !InOrder(S, a);
  }

  lemma DisorderedIsShared(F: seq<Slot>, S: seq<Slot>, to: seq<nat>, from: seq<nat>, last: Word)
    requires AllInRange(F, last) && Disjoint(F) && last < TWO_31 && Sorts(F, S, to, from) && !Ordered(S)
    ensures Shares(F)
  {
    SortingKeepsRange(F, S, to, from, last);
    SortingKeepsDisjoint(F, S, to, from);
    OrderedUnlessShared(S, last);
    var i :| SharesStart(S, i);
    assert ApartAt(S, i, i + 1);
    assert Goes(F, S, to, from, i) && Goes(F, S, to, from, i + 1);
    assert SharesFirstBlock(F, from[i], from[i + 1]);
  }

  /** Every order qsort may leave is fit for the search exactly when no empty file shares its first block. */
  lemma EveryOrderFitsExactlyWhen(F: seq<Slot>, last: Word)
    requires AllInRange(F, last) && Disjoint(F) && last < TWO_31
    ensures (forall S, to, from | Sorts(F, S, to, from) && End !in S :: Ordered(S)) <==> !Shares(F)
  {
    if Shares(F) {
      var i, j :| SharesFirstBlock(F, i, j);
      var S, to, from := SortByKey(F);
      ByKeySorts(F, S, to, from, last);
      SharedIsDisordered(F, S, to, from, last, i, j);
    } else {
      forall S, to, from | Sorts(F, S, to, from) && End !in S ensures Ordered(S) {
        if !Ordered(S) {
          DisorderedIsShared(F, S, to, from, last);
        }
      }
    }
  }

  // ---- the directory ----

  /** create leaves a sound directory, whatever size is asked for. */
  ghost predicate RightFor(D: seq<Slot>, S: seq<Slot>, last: Word, name: string)
    requires End !in S
  {
    forall maxsize: Word :: Sound(After(D, S, last, name, maxsize), last)
  }

  /**
   On a sound directory with a free record, create of a new name is right for
   every size and every order qsort may leave exactly when no empty file starts
   where a non-empty one does.
   */
  lemma CreateRightExactlyWhen(D: seq<Slot>, last: Word, name: string)
    requires Sound(D, last) && 1 <= last < TWO_31 && !Has(D, name) && |Files(D)| < ENTRIES
    ensures (forall S, to, from | Sorts(Files(D), S, to, from) && End !in S :: RightFor(D, S, last, name)) <==> !Shares(Files(D))
  {
    var F := Files(D);
    assert D[..UsedEntries(D)] == F;
    EveryOrderFitsExactlyWhen(F, last);
    forall S, to, from | Sorts(F, S, to, from) && End !in S ensures RightFor(D, S, last, name) <==> Ordered(S) {
      CreateRightExactlyWhenOrdered(D, S, to, from, last, name);
    }
  }

  /**
   Such a directory, on any disk of at least six blocks: two files of two blocks
   with an empty one between them, and a request for two blocks.
   */
  lemma CreateCanGiveAwayBlocks(last: Word, n0: string, n1: string, n2: string, name: string)
      returns (D: seq<Slot>, S: seq<Slot>, to: seq<nat>, from: seq<nat>)
    requires 5 <= last < TWO_31 && name != n0 && name != n1 && name != n2
    ensures Sound(D, last) && Sorts(Files(D), S, to, from) && End !in S
    ensures Decide(D, S, last, name, 4) == Created(3) && !Sound(After(D, S, last, name, 4), last)
  {
    S := [File(n0, 1, 2, 0), File(n1, 1, 0, 0), File(n2, 3, 2, 0)];
    to, from := [0, 1, 2], [0, 1, 2];
    D := S + seq(61, _ => End);
    AnEmptyFileMisleads(S, last);
    ThreeFiles(D, S);
    assert !Has(D, name);
    var f := File(name, 3, 2, 0);
    WithFileAppends(D, f);
    var E := S + [f];
    assert !ApartAt(E, 2, 3);
  }

  lemma ThreeFiles(D: seq<Slot>, S: seq<Slot>)
    requires |S| == 3 && |D| == ENTRIES && D[..3] == S && D[3].End? && S[0].File? && S[1].File? && S[2].File?
    ensures Terminated(D) && Files(D) == S && FirstEnd(D, 0) == 3
  {
    assert D[0] == S[0] && D[1] == S[1] && D[2] == S[2];
    assert FirstGap(D, 3) == 3 && FirstGap(D, 2) == 3 && FirstGap(D, 1) == 3;
    assert FirstEnd(D, 3) == 3 && FirstEnd(D, 2) == 3 && FirstEnd(D, 1) == 3;
  }

  // ---- any sequence of creates ----

  /** One call of create, with the order qsort leaves in it. */
  datatype Creation = Creation(name: string, maxsize: Word, sorted: seq<Slot>, to: seq<nat>, from: seq<nat>)

  /** The creates of cs, one after the other, turn D into E. */
  ghost predicate Creates(D: seq<Slot>, cs: seq<Creation>, last: Word, E: seq<Slot>)
    decreases |cs|
  {
    if cs == [] then E == D
    else
      var c := cs[0];
      && End !in c.sorted && Sorts(D[..UsedEntries(D)], c.sorted, c.to, c.from)
      && Creates(After(D, c.sorted, last, c.name, c.maxsize), cs[1..], last, E)
  }

  predicate IsNamed(F: seq<Slot>, i: nat, name: string) {
    i < |F| && F[i].File? && F[i].name == name
  }

  /** No two files have the same name. */
  ghost predicate NamesDiffer(F: seq<Slot>) {
    forall i: nat, j: nat, name {:trigger IsNamed(F, i, name), IsNamed(F, j, name)} | IsNamed(F, i, name) && IsNamed(F, j, name) :: i == j
  }

  /** create adds a file exactly when it is the first one of that name, and names stay different. */
  lemma CreateKeepsNames(D: seq<Slot>, c: Creation, last: Word)
    requires Sound(D, last) && End !in c.sorted && NamesDiffer(Files(D))
    ensures NamesDiffer(Files(After(D, c.sorted, last, c.name, c.maxsize)))
    ensures Decide(D, c.sorted, last, c.name, c.maxsize).Exists? <==> exists i: nat :: IsNamed(Files(D), i, c.name)
  {
    var F := Files(D);
    if i: nat :| IsNamed(F, i, c.name) {
      assert Has(D, c.name) by {
        assert D[i].File? && D[i].name == c.name;
      }
    }
    if Has(D, c.name) {
      var i :| 0 <= i < FirstEnd(D, 0) && D[i].File? && D[i].name == c.name;
      assert IsNamed(F, i, c.name);
    }
    var r := Decide(D, c.sorted, last, c.name, c.maxsize);
    if r.Created? {
      var f := File(c.name, r.start, Blocks(c.maxsize), 0);
      WithFileAppends(D, f);
      forall i: nat, j: nat, name | IsNamed(F + [f], i, name) && IsNamed(F + [f], j, name) ensures i == j {
        assert i < |F| ==> IsNamed(F, i, name);
        assert j < |F| ==> IsNamed(F, j, name);
      }
    }
  }

  lemma OneCreate(D: seq<Slot>, c: Creation, last: Word)
    requires Sound(D, last) && NonEmpty(Files(D)) && 1 <= last < TWO_31
    requires End !in c.sorted && Sorts(D[..UsedEntries(D)], c.sorted, c.to, c.from) && Blocks(c.maxsize) > 0
    ensures var E := After(D, c.sorted, last, c.name, c.maxsize);
            Sound(E, last) && NonEmpty(Files(E)) && Files(D) <= Files(E)
  {
    if |Files(D)| < ENTRIES {
      SortingKeepsRange(Files(D), c.sorted, c.to, c.from, last);
      SortingKeepsDisjoint(Files(D), c.sorted, c.to, c.from);
      SortingKeepsNonEmpty(Files(D), c.sorted, c.to, c.from);
      NonEmptyIsOrdered(c.sorted, last);
      CreateKeepsDirectory(D, c.sorted, c.to, c.from, last, c.name, c.maxsize);
    }
  }

  /**
   From a sound directory without empty files, any sequence of creates with
   sizes other than 0, whatever orders qsort leaves, keeps every file where it
   is and ends in a sound directory without empty files; names that differ keep
   differing.
   */
  lemma {:induction false} CreatesKeepDirectory(D: seq<Slot>, cs: seq<Creation>, last: Word, E: seq<Slot>)
    requires Sound(D, last) && NonEmpty(Files(D)) && 1 <= last < TWO_31
    requires Creates(D, cs, last, E) && forall c | c in cs :: Blocks(c.maxsize) > 0
    ensures Sound(E, last) && NonEmpty(Files(E)) && Files(D) <= Files(E)
    ensures NamesDiffer(Files(D)) ==> NamesDiffer(Files(E))
    decreases |cs|
  {
    if cs != [] {
      var c := cs[0];
      OneCreate(D, c, last);
      if NamesDiffer(Files(D)) {
        CreateKeepsNames(D, c, last);
      }
      CreatesKeepDirectory(After(D, c.sorted, last, c.name, c.maxsize), cs[1..], last, E);
    }
  }
}
