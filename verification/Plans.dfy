/** Executor trees as values: the list of payloads each denotes, and which trees denote the same. */
module Plans {
  import opened Bytes
  import opened Permutations
  import opened Wrappers

  const MAX_TUPLE := 2048

  type Payload = s: seq<Byte> | |s| <= MAX_TUPLE

  datatype Row = Row(pageId: int, payload: Payload)

  datatype Layer = HOT | COLD | BOTH

  datatype AggregationType = COUNT | SUM | AVG | MIN | MAX

  /** What the standard library's sort does to rows compared by the integer at an offset. */
  type Sorter = (seq<Payload>, nat) -> seq<Payload>

  /** A scan without a layer manager filters nothing; a merge may lack either input. */
  datatype Plan =
    | Scan(rows: seq<Row>, hotPages: Option<set<int>>, target: Layer)
    | Merge(hot: Option<Plan>, cold: Option<Plan>)
    | Join(left: Plan, right: Plan)
    | Sort(child: Plan, offset: nat)
    | Aggregate(child: Plan, kind: AggregationType, offset: nat)

  /** The integer a sort or an aggregate looks at; rows too short to hold one count as zero. */
  function Key(p: Payload, offset: nat): Int32 {
    if offset + 4 <= |p| then ReadInt(p, offset) else 0
  }

  function Keys(ps: seq<Payload>, offset: nat): seq<int> {
    Map((p: Payload) => Key(p, offset) as int, ps)
  }

  /** Any sort will do that returns its input in ascending key order. */
  ghost predicate Sorts(sort: Sorter) {
    forall ps, offset {:trigger sort(ps, offset)} ::
      SameElements(sort(ps, offset), ps) && Ascending(Keys(sort(ps, offset), offset))
  }

  // ---- a sort of this kind ----

  function Insert(ps: seq<Payload>, p: Payload, offset: nat): seq<Payload> {
    if ps == [] || Key(p, offset) <= Key(ps[0], offset) then [p] + ps else [ps[0]] + Insert(ps[1..], p, offset)
  }

  function InsertionSort(ps: seq<Payload>, offset: nat): seq<Payload> {
    if ps == [] then [] else Insert(InsertionSort(ps[1..], offset), ps[0], offset)
  }

  ghost predicate InKeyOrder(ps: seq<Payload>, offset: nat) {
    forall i, j :: 0 <= i < j < |ps| ==> Key(ps[i], offset) <= Key(ps[j], offset)
  }

  lemma {:induction false} KeyAt(ps: seq<Payload>, offset: nat, i: nat)
    requires i < |ps|
    ensures Keys(ps, offset)[i] == Key(ps[i], offset)
    decreases i
  {
    if i > 0 {
      KeyAt(ps[1..], offset, i - 1);
    }
  }

  lemma InKeyOrderAscends(ps: seq<Payload>, offset: nat)
    requires InKeyOrder(ps, offset)
    ensures Ascending(Keys(ps, offset))
  {
    forall i, j | 0 <= i < j < |ps| ensures Keys(ps, offset)[i] <= Keys(ps, offset)[j] {
      KeyAt(ps, offset, i);
      KeyAt(ps, offset, j);
    }
  }

  lemma {:induction false} InsertElements(ps: seq<Payload>, p: Payload, offset: nat)
    ensures SameElements(Insert(ps, p, offset), [p] + ps)
    decreases |ps|
  {
    if ps != [] {
      InsertElements(ps[1..], p, offset);
      assert ps == [ps[0]] + ps[1..];
    }
  }

  lemma LeastFirst(p: Payload, ps: seq<Payload>, offset: nat)
    requires InKeyOrder(ps, offset) && forall q :: q in ps ==> Key(p, offset) <= Key(q, offset)
    ensures InKeyOrder([p] + ps, offset)
  {
  }

  lemma {:induction false} InsertOrders(ps: seq<Payload>, p: Payload, offset: nat)
    requires InKeyOrder(ps, offset)
    ensures InKeyOrder(Insert(ps, p, offset), offset)
    decreases |ps|
  {
    hide Key;
    if ps == [] || Key(p, offset) <= Key(ps[0], offset) {
      LeastFirst(p, ps, offset);
    } else {
      var rest := Insert(ps[1..], p, offset);
      InsertOrders(ps[1..], p, offset);
      InsertElements(ps[1..], p, offset);
      SameMembers(rest, [p] + ps[1..]);
      LeastFirst(ps[0], rest, offset);
    }
  }

  lemma {:induction false} InsertionSortOrders(ps: seq<Payload>, offset: nat)
    ensures InKeyOrder(InsertionSort(ps, offset), offset) && SameElements(InsertionSort(ps, offset), ps)
    decreases |ps|
  {
    if ps != [] {
      InsertionSortOrders(ps[1..], offset);
      InsertOrders(InsertionSort(ps[1..], offset), ps[0], offset);
      InsertElements(InsertionSort(ps[1..], offset), ps[0], offset);
      assert ps == [ps[0]] + ps[1..];
    }
  }

  /** There are functions that sort: what is proved of all of them is not empty. */
  lemma InsertionSorts()
    ensures Sorts(InsertionSort)
  {
    forall ps, offset ensures SameElements(InsertionSort(ps, offset), ps) && Ascending(Keys(InsertionSort(ps, offset), offset)) {
      InsertionSortOrders(ps, offset);
      InKeyOrderAscends(InsertionSort(ps, offset), offset);
    }
  }

  // ---- what the operators denote ----

  predicate Passes(row: Row, hotPages: Option<set<int>>, target: Layer) {
    hotPages.None? || target == BOTH || (target == HOT <==> row.pageId in hotPages.value)
  }

  function Scanned(rows: seq<Row>, hotPages: Option<set<int>>, target: Layer): seq<Payload> {
    if rows == [] then []
    else (if Passes(rows[0], hotPages, target) then [rows[0].payload] else []) + Scanned(rows[1..], hotPages, target)
  }

  /** Two payloads end to end, cut where a tuple is full. */
  function Combine(l: Payload, r: Payload): Payload {
    if |l| + |r| <= MAX_TUPLE then l + r else l + r[..MAX_TUPLE - |l|]
  }

  function RowJoin(l: Payload, rs: seq<Payload>): seq<Payload> {
    Map(r => Combine(l, r), rs)
  }

  function CrossJoin(ls: seq<Payload>, rs: seq<Payload>): seq<Payload> {
    if ls == [] then [] else RowJoin(ls[0], rs) + CrossJoin(ls[1..], rs)
  }

  /** C++ integer division, which drops the fraction. */
  function Quotient(a: int, b: int): int
    requires b > 0
  {
    if a >= 0 then a / b else -((-a) / b)
  }

  function Least(xs: seq<int>): (m: int)
    requires xs != []
    ensures m in xs && forall x :: x in xs ==> m <= x
  {
    if |xs| == 1 then xs[0]
    else
      assert xs == xs[..|xs| - 1] + [xs[|xs| - 1]];
      var m := Least(xs[..|xs| - 1]); if xs[|xs| - 1] < m then xs[|xs| - 1] else m
  }

  function Greatest(xs: seq<int>): (m: int)
    requires xs != []
    ensures m in xs && forall x :: x in xs ==> x <= m
  {
    if |xs| == 1 then xs[0]
    else
      assert xs == xs[..|xs| - 1] + [xs[|xs| - 1]];
      var m := Greatest(xs[..|xs| - 1]); if xs[|xs| - 1] > m then xs[|xs| - 1] else m
  }

  function Aggregated(keys: seq<int>, kind: AggregationType): Int32 {
    match kind
    case COUNT => Wrap32(|keys|)
    case SUM => Wrap32(Sum(keys))
    case AVG => if keys == [] then 0 else Wrap32(Quotient(Sum(keys), |keys|))
    case MIN => if keys == [] then 0 else Wrap32(Least(keys))
    case MAX => if keys == [] then 0 else Wrap32(Greatest(keys))
  }

  /** The payloads a tree produces, in order. */
  function Denote(p: Plan, sort: Sorter): seq<Payload> {
    match p
    case Scan(rows, hotPages, target) => Scanned(rows, hotPages, target)
    case Merge(hot, cold) =>
      (if hot.Some? then Denote(hot.value, sort) else []) + (if cold.Some? then Denote(cold.value, sort) else [])
    case Join(left, right) => CrossJoin(Denote(left, sort), Denote(right, sort))
    case Sort(child, offset) => sort(Denote(child, sort), offset)
    case Aggregate(child, kind, offset) => [IntBytes(Aggregated(Keys(Denote(child, sort), offset), kind))]
  }

  /** How the running values of an aggregate take one more key. */
  lemma FoldStep(keys: seq<int>, v: int)
    ensures Sum(keys + [v]) == Sum(keys) + v
    ensures Least(keys + [v]) == if keys == [] || v < Least(keys) then v else Least(keys)
    ensures Greatest(keys + [v]) == if keys == [] || v > Greatest(keys) then v else Greatest(keys)
  {
    assert (keys + [v])[..|keys|] == keys;
    SumAppend(keys, [v]);
    assert Sum([v]) == v by {
      assert [v][1..] == [];
    }
  }

  // ---- what the definitions come to ----

  /** The key is the little-endian number at the offset, or zero where the payload is too short. */
  lemma KeyMeans(p: Payload, offset: nat)
    ensures offset + 4 > |p| ==> Key(p, offset) == 0
    ensures offset + 4 <= |p| ==>
              var b0: int, b1: int, b2: int, b3: int := p[offset], p[offset + 1], p[offset + 2], p[offset + 3];
              var u := b0 + 256 * b1 + 65536 * b2 + 16777216 * b3;
              Key(p, offset) == if b3 < 128 then u else u - 4294967296
  {
    if offset + 4 <= |p| {
      LittleEndian(p, offset);
    }
  }

  /** Quotients drop the fraction: what is left over is smaller than the divisor and has the sign of the dividend. */
  lemma QuotientMeans(a: int, n: int)
    requires n > 0
    ensures var r := a - Quotient(a, n) * n; -n < r < n && (a >= 0 ==> r >= 0) && (a <= 0 ==> r <= 0)
  {
    if a < 0 {
      assert -a == (-a) / n * n + (-a) % n;
    } else {
      assert a == a / n * n + a % n;
    }
  }

  /** An average of 32-bit numbers is one itself. */
  lemma {:induction false} SumInRange(keys: seq<int>)
    requires forall k :: k in keys ==> -2147483648 <= k <= 2147483647
    ensures -2147483648 * |keys| <= Sum(keys) <= 2147483647 * |keys|
    decreases |keys|
  {
    if keys != [] {
      assert forall k :: k in keys[1..] ==> k in keys;
      assert keys[0] in keys;
      SumInRange(keys[1..]);
    }
  }

  lemma NegativeProduct(x: int, n: int)
    requires x < 0 < n
    ensures x * n < 0
  {
  }

  lemma AtMost(a: int, n: int, c: int)
    requires n > 0 && 0 <= a <= c * n
    ensures a / n <= c
  {
    assert a / n * n <= a;
    assert (c - a / n) * n == c * n - a / n * n;
    if c - a / n < 0 {
      NegativeProduct(c - a / n, n);
    }
  }

  lemma AverageFits(a: int, n: int)
    requires n > 0 && -2147483648 * n <= a <= 2147483647 * n
    ensures -2147483648 <= Quotient(a, n) <= 2147483647
  {
    if a >= 0 {
      AtMost(a, n, 2147483647);
    } else {
      AtMost(-a, n, 2147483648);
    }
  }

  /** What each aggregate of 32-bit keys is. */
  lemma AggregatedMeans(keys: seq<int>)
    requires forall k :: k in keys ==> -2147483648 <= k <= 2147483647
    ensures |keys| <= 2147483647 ==> Aggregated(keys, COUNT) == |keys|
    ensures -2147483648 <= Sum(keys) <= 2147483647 ==> Aggregated(keys, SUM) == Sum(keys)
    ensures keys == [] ==> forall kind :: Aggregated(keys, kind) == 0
    ensures keys != [] ==> var least := Aggregated(keys, MIN); least in keys && forall k :: k in keys ==> least <= k
    ensures keys != [] ==> var greatest := Aggregated(keys, MAX); greatest in keys && forall k :: k in keys ==> k <= greatest
    ensures keys != [] ==>
              var n: int := |keys|; var r := Sum(keys) - Aggregated(keys, AVG) * n;
              -n < r < n && (Sum(keys) >= 0 ==> r >= 0) && (Sum(keys) <= 0 ==> r <= 0)
  {
    hide Least, Greatest, Quotient;
    if keys != [] {
      SumInRange(keys);
      QuotientMeans(Sum(keys), |keys|);
      AverageFits(Sum(keys), |keys|);
    }
  }

  lemma KeysInRange(ps: seq<Payload>, offset: nat)
    ensures forall k :: k in Keys(ps, offset) ==> -2147483648 <= k <= 2147483647
  {
    forall k | k in Keys(ps, offset) ensures -2147483648 <= k <= 2147483647 {
      var i :| 0 <= i < |Keys(ps, offset)| && Keys(ps, offset)[i] == k;
      KeyAt(ps, offset, i);
    }
  }

  /** The same read from the row an aggregate yields. */
  lemma RowMeans(keys: seq<int>, kind: AggregationType, ps: seq<Payload>, offset: nat)
    requires keys == Keys(ps, offset)
    ensures var v := ReadInt(IntBytes(Aggregated(keys, kind)), 0);
            && (keys == [] ==> v == 0)
            && (kind == COUNT && |keys| <= 2147483647 ==> v == |keys|)
            && (kind == SUM && -2147483648 <= Sum(keys) <= 2147483647 ==> v == Sum(keys))
            && (kind == MIN && keys != [] ==> v in keys && forall k :: k in keys ==> v <= k)
            && (kind == MAX && keys != [] ==> v in keys && forall k :: k in keys ==> k <= v)
    ensures var v: int := ReadInt(IntBytes(Aggregated(keys, kind)), 0);
            kind == AVG && keys != [] ==>
              var n: int := |keys|; var r := Sum(keys) - v * n;
              -n < r < n && (Sum(keys) >= 0 ==> r >= 0) && (Sum(keys) <= 0 ==> r <= 0)
  {
    hide Aggregated, Keys, IntBytes;
    KeysInRange(ps, offset);
    AggregatedMeans(keys);
    ReadWhole(Aggregated(keys, kind));
  }

  /** The payloads of the rows on the given pages, or of those on no such page. */
  function OnPages(rows: seq<Row>, pages: set<int>, on: bool): seq<Payload> {
    if rows == [] then []
    else (if (rows[0].pageId in pages) == on then [rows[0].payload] else []) + OnPages(rows[1..], pages, on)
  }

  function Payloads(rows: seq<Row>): seq<Payload> {
    Map((r: Row) => r.payload, rows)
  }

  /** A hot scan yields the rows of the hot pages, a cold scan the others, any other scan all rows, in their order. */
  lemma {:induction false} ScannedMeans(rows: seq<Row>, hotPages: set<int>, target: Layer)
    ensures Scanned(rows, Some(hotPages), HOT) == OnPages(rows, hotPages, true)
    ensures Scanned(rows, Some(hotPages), COLD) == OnPages(rows, hotPages, false)
    ensures Scanned(rows, Some(hotPages), BOTH) == Scanned(rows, None, target) == Payloads(rows)
    decreases |rows|
  {
    if rows != [] {
      ScannedMeans(rows[1..], hotPages, target);
    }
  }

  /** Row `j` of the right input for row `i` of the left: both end to end, the first 2048 bytes of them. */
  lemma {:induction false} CrossJoinAt(ls: seq<Payload>, rs: seq<Payload>, i: nat, j: nat)
    requires i < |ls| && j < |rs|
    ensures i * |rs| + j < |CrossJoin(ls, rs)|
    ensures var l: seq<Byte>, r: seq<Byte> := ls[i], rs[j];
            var both := l + r;
            CrossJoin(ls, rs)[i * |rs| + j] == if |both| <= 2048 then both else both[..2048]
    decreases i
  {
    RowJoinAt(ls[0], rs, j);
    if i > 0 {
      CrossJoinAt(ls[1..], rs, i - 1, j);
      assert i * |rs| + j == |rs| + ((i - 1) * |rs| + j);
    }
  }

  lemma {:induction false} RowJoinAt(l: Payload, rs: seq<Payload>, j: nat)
    requires j < |rs|
    ensures var a: seq<Byte>, b: seq<Byte> := l, rs[j];
            var both := a + b;
            RowJoin(l, rs)[j] == if |both| <= 2048 then both else both[..2048]
    decreases j
  {
    if j > 0 {
      RowJoinAt(l, rs[1..], j - 1);
    }
  }

  // ---- aggregates do not depend on the order of rows ----

  lemma AggregatedSameElements(xs: seq<int>, ys: seq<int>, kind: AggregationType)
    requires SameElements(xs, ys)
    ensures Aggregated(xs, kind) == Aggregated(ys, kind)
  {
    hide Sum, Least, Greatest, Wrap32, Quotient, SameElements;
    SameLength(xs, ys);
    SumSameElements(xs, ys);
    if xs != [] {
      SameExtremes(xs, ys);
    }
  }

  lemma SameExtremes(xs: seq<int>, ys: seq<int>)
    requires SameElements(xs, ys) && xs != [] && ys != []
    ensures Least(xs) == Least(ys) && Greatest(xs) == Greatest(ys)
  {
    hide Least, Greatest, SameElements;
    SameMembers(xs, ys);
    assert Least(xs) in ys && Least(ys) in xs && Greatest(xs) in ys && Greatest(ys) in xs;
  }

  lemma KeysSameElements(xs: seq<Payload>, ys: seq<Payload>, offset: nat)
    requires SameElements(xs, ys)
    ensures SameElements(Keys(xs, offset), Keys(ys, offset))
  {
    MapSameElements((p: Payload) => Key(p, offset) as int, xs, ys);
  }

  lemma KeysAppend(ps: seq<Payload>, t: Payload, offset: nat)
    ensures Keys(ps + [t], offset) == Keys(ps, offset) + [Key(t, offset) as int]
  {
    MapAppend((p: Payload) => Key(p, offset) as int, ps, [t]);
    assert [t][1..] == [];
  }

  /** Sorting the same rows gives the same key sequence, however ties fall. */
  lemma SortedKeysEqual(sort: Sorter, xs: seq<Payload>, ys: seq<Payload>, offset: nat)
    requires Sorts(sort) && SameElements(xs, ys)
    ensures Keys(sort(xs, offset), offset) == Keys(sort(ys, offset), offset)
  {
    var a, b := sort(xs, offset), sort(ys, offset);
    assert SameElements(a, b);
    KeysSameElements(a, b, offset);
    AscendingUnique(Keys(a, offset), Keys(b, offset));
  }

  /** A sort denotes its child's payloads, none lost or repeated, and no key is greater than a later one. */
  lemma SortMeans(child: Plan, offset: nat, sort: Sorter, i: nat, j: nat)
    requires Sorts(sort) && i < j < |Denote(Sort(child, offset), sort)|
    ensures var ps := Denote(Sort(child, offset), sort);
            Key(ps[i], offset) <= Key(ps[j], offset) && multiset(ps) == multiset(Denote(child, sort))
  {
    hide Key;
    var ps := Denote(Sort(child, offset), sort);
    assert SameElements(ps, Denote(child, sort)) && Ascending(Keys(ps, offset));
    KeyAt(ps, offset, i);
    KeyAt(ps, offset, j);
  }

  // ---- cross joins ----

  lemma {:induction false} CrossJoinAppend(xs: seq<Payload>, ys: seq<Payload>, rs: seq<Payload>)
    ensures CrossJoin(xs + ys, rs) == CrossJoin(xs, rs) + CrossJoin(ys, rs)
    decreases |xs|
  {
    hide RowJoin;
    if xs == [] {
      assert xs + ys == ys;
    } else {
      assert (xs + ys)[1..] == xs[1..] + ys;
      CrossJoinAppend(xs[1..], ys, rs);
    }
  }

  lemma {:induction false} CrossJoinSameRight(ls: seq<Payload>, xs: seq<Payload>, ys: seq<Payload>)
    requires SameElements(xs, ys)
    ensures SameElements(CrossJoin(ls, xs), CrossJoin(ls, ys))
    decreases |ls|
  {
    if ls != [] {
      MapSameElements(r => Combine(ls[0], r), xs, ys);
      CrossJoinSameRight(ls[1..], xs, ys);
    }
  }

  /** A nested-loop join produces the pair of the current left and the next right row first. */
  lemma JoinStep(l: Payload, r: Payload, rs: seq<Payload>, more: seq<Payload>)
    ensures RowJoin(l, [r] + rs) + more == [Combine(l, r)] + (RowJoin(l, rs) + more)
  {
    assert ([r] + rs)[1..] == rs;
  }

  lemma JoinAdvance(l: Payload, ls: seq<Payload>, rs: seq<Payload>)
    ensures CrossJoin([l] + ls, rs) == RowJoin(l, rs) + CrossJoin(ls, rs)
    ensures RowJoin(l, []) + CrossJoin(ls, rs) == CrossJoin(ls, rs)
  {
    assert ([l] + ls)[1..] == ls;
  }

  lemma JoinNone(rs: seq<Payload>)
    ensures CrossJoin([], rs) == []
  {
  }

  lemma CrossJoinWithout(ls: seq<Payload>, j: nat, rs: seq<Payload>)
    requires j < |ls|
    ensures multiset(CrossJoin(ls, rs)) == multiset(RowJoin(ls[j], rs)) + multiset(CrossJoin(Without(ls, j), rs))
  {
    var a, b := ls[..j], ls[j + 1..];
    CrossJoinAppend(a, b, rs);
    CrossJoinAppend(a, [ls[j]] + b, rs);
    assert ls == a + ([ls[j]] + b);
    assert ([ls[j]] + b)[1..] == b;
  }

  lemma {:induction false} CrossJoinSameLeft(xs: seq<Payload>, ys: seq<Payload>, rs: seq<Payload>)
    requires SameElements(xs, ys)
    ensures SameElements(CrossJoin(xs, rs), CrossJoin(ys, rs))
    decreases |xs|
  {
    SameLength(xs, ys);
    if xs != [] {
      var j := TakeFirst(xs, ys);
      CrossJoinSameLeft(xs[1..], Without(ys, j), rs);
      CrossJoinWithout(ys, j, rs);
    }
  }

  function Cut(s: seq<Byte>): Payload {
    if |s| <= MAX_TUPLE then s else s[..MAX_TUPLE]
  }

  lemma CombineIsCut(l: Payload, r: Payload)
    ensures Combine(l, r) == Cut(l + r)
  {
  }

  lemma CutLeft(s: seq<Byte>, t: seq<Byte>)
    ensures Cut(Cut(s) + t) == Cut(s + t)
  {
    assert |s| > MAX_TUPLE ==> (s[..MAX_TUPLE] + t)[..MAX_TUPLE] == (s + t)[..MAX_TUPLE];
  }

  lemma CutRight(s: seq<Byte>, t: seq<Byte>)
    requires |s| <= MAX_TUPLE
    ensures Cut(s + Cut(t)) == Cut(s + t)
  {
    assert |t| > MAX_TUPLE ==> (s + t[..MAX_TUPLE])[..MAX_TUPLE] == (s + t)[..MAX_TUPLE];
  }

  /** Cutting at a full tuple twice is cutting once. */
  lemma CombineAssociative(a: Payload, b: Payload, c: Payload)
    ensures Combine(Combine(a, b), c) == Combine(a, Combine(b, c))
  {
    CombineIsCut(a, b);
    CombineIsCut(Combine(a, b), c);
    CombineIsCut(b, c);
    CombineIsCut(a, Combine(b, c));
    CutLeft(a + b, c);
    CutRight(a, b + c);
    assert a + b + c == a + (b + c);
  }

  lemma {:induction false} RowJoinTwice(a: Payload, b: Payload, cs: seq<Payload>)
    ensures RowJoin(Combine(a, b), cs) == RowJoin(a, RowJoin(b, cs))
    decreases |cs|
  {
    if cs != [] {
      CombineAssociative(a, b, cs[0]);
      RowJoinTwice(a, b, cs[1..]);
    }
  }

  lemma {:induction false} RowJoinCross(a: Payload, bs: seq<Payload>, cs: seq<Payload>)
    ensures CrossJoin(RowJoin(a, bs), cs) == RowJoin(a, CrossJoin(bs, cs))
    decreases |bs|
  {
    if bs != [] {
      RowJoinTwice(a, bs[0], cs);
      RowJoinCross(a, bs[1..], cs);
      MapAppend(r => Combine(a, r), RowJoin(bs[0], cs), CrossJoin(bs[1..], cs));
    }
  }

  /** Nested-loop joins are associative on payload bytes, order included, even where tuples are cut. */
  lemma {:induction false} CrossJoinAssociative(xs: seq<Payload>, ys: seq<Payload>, zs: seq<Payload>)
    ensures CrossJoin(CrossJoin(xs, ys), zs) == CrossJoin(xs, CrossJoin(ys, zs))
    decreases |xs|
  {
    if xs != [] {
      CrossJoinAppend(RowJoin(xs[0], ys), CrossJoin(xs[1..], ys), zs);
      RowJoinCross(xs[0], ys, zs);
      CrossJoinAssociative(xs[1..], ys, zs);
    }
  }

  lemma {:induction false} CrossJoinLength(ls: seq<Payload>, rs: seq<Payload>)
    ensures |CrossJoin(ls, rs)| == |ls| * |rs|
    decreases |ls|
  {
    if ls != [] {
      CrossJoinLength(ls[1..], rs);
      assert |ls| * |rs| == (|ls| - 1) * |rs| + |rs|;
    }
  }

  // ---- the layered plan ----

  lemma {:induction false} LayersPartition(rows: seq<Row>, hotPages: set<int>)
    ensures SameElements(Scanned(rows, Some(hotPages), HOT) + Scanned(rows, Some(hotPages), COLD),
                         Scanned(rows, None, BOTH))
    decreases |rows|
  {
    if rows != [] {
      LayersPartition(rows[1..], hotPages);
      var h, c := Scanned(rows[1..], Some(hotPages), HOT), Scanned(rows[1..], Some(hotPages), COLD);
      var all := Scanned(rows[1..], None, BOTH);
      var p := rows[0].payload;
      if rows[0].pageId in hotPages {
        assert Scanned(rows, Some(hotPages), HOT) == [p] + h && Scanned(rows, Some(hotPages), COLD) == [] + c == c;
      } else {
        assert Scanned(rows, Some(hotPages), HOT) == [] + h == h && Scanned(rows, Some(hotPages), COLD) == [p] + c;
      }
      assert Scanned(rows, None, BOTH) == [p] + all;
      PutInEither(p, h, c, all);
    }
  }

  lemma PutInEither<T>(x: T, a: seq<T>, b: seq<T>, all: seq<T>)
    requires SameElements(a + b, all)
    ensures SameElements(([x] + a) + b, [x] + all) && SameElements(a + ([x] + b), [x] + all)
  {
  }

  lemma DenoteLayers(rows: seq<Row>, hotPages: set<int>, sort: Sorter)
    ensures Denote(Merge(Some(Scan(rows, Some(hotPages), HOT)), Some(Scan(rows, Some(hotPages), COLD))), sort)
            == Scanned(rows, Some(hotPages), HOT) + Scanned(rows, Some(hotPages), COLD)
  {
    hide Scanned;
    assert forall target :: Denote(Scan(rows, Some(hotPages), target), sort) == Scanned(rows, Some(hotPages), target);
  }

  /** A tree with every unfiltered scan split into a hot and a cold scan of the same table. */
  function Layered(p: Plan, hotPages: set<int>): Plan {
    match p
    case Scan(rows, hot, target) =>
      if LetsAllThrough(hot, target) then Merge(Some(Scan(rows, Some(hotPages), HOT)), Some(Scan(rows, Some(hotPages), COLD)))
      else p
    case Merge(hot, cold) =>
      Merge(if hot.Some? then Some(Layered(hot.value, hotPages)) else None,
            if cold.Some? then Some(Layered(cold.value, hotPages)) else None)
    case Join(left, right) => Join(Layered(left, hotPages), Layered(right, hotPages))
    case Sort(child, offset) => Sort(Layered(child, hotPages), offset)
    case Aggregate(child, kind, offset) => Aggregate(Layered(child, hotPages), kind, offset)
  }

  /** The scan lets every row through. */
  predicate LetsAllThrough(hotPages: Option<set<int>>, target: Layer) {
    hotPages.None? || target == BOTH
  }

  lemma {:induction false} UnfilteredScan(rows: seq<Row>, hotPages: Option<set<int>>, target: Layer)
    requires LetsAllThrough(hotPages, target)
    ensures Scanned(rows, hotPages, target) == Scanned(rows, None, BOTH)
    decreases |rows|
  {
    if rows != [] {
      UnfilteredScan(rows[1..], hotPages, target);
    }
  }

  /** Splitting the scans of any tree by any set of hot pages only reorders its rows. */
  lemma {:induction false} LayeredSameRows(p: Plan, hotPages: set<int>, sort: Sorter)
    requires Sorts(sort)
    ensures SameElements(Denote(Layered(p, hotPages), sort), Denote(p, sort))
    decreases p
  {
    match p
    case Scan(rows, hot, target) =>
      if LetsAllThrough(hot, target) {
        LayersPartition(rows, hotPages);
        UnfilteredScan(rows, hot, target);
      }
    case Merge(hot, cold) =>
      if hot.Some? {
        LayeredSameRows(hot.value, hotPages, sort);
      }
      if cold.Some? {
        LayeredSameRows(cold.value, hotPages, sort);
      }
    case Join(left, right) =>
      LayeredSameRows(left, hotPages, sort);
      LayeredSameRows(right, hotPages, sort);
      var l, r := Denote(left, sort), Denote(right, sort);
      var l', r' := Denote(Layered(left, hotPages), sort), Denote(Layered(right, hotPages), sort);
      CrossJoinSameLeft(l', l, r');
      CrossJoinSameRight(l, r', r);
    case Sort(child, offset) =>
      LayeredSameRows(child, hotPages, sort);
      var c, c' := Denote(child, sort), Denote(Layered(child, hotPages), sort);
      assert SameElements(sort(c, offset), c) && SameElements(sort(c', offset), c');
    case Aggregate(child, kind, offset) =>
      LayeredSameRows(child, hotPages, sort);
      var c, c' := Denote(child, sort), Denote(Layered(child, hotPages), sort);
      KeysSameElements(c', c, offset);
      AggregatedSameElements(Keys(c', offset), Keys(c, offset), kind);
  }

  /** Aggregates over the layered tree are equal, and sorting it shows the same keys in the same order. */
  lemma LayeredPlanEquivalence(p: Plan, hotPages: set<int>, sort: Sorter, kind: AggregationType, offset: nat)
    requires Sorts(sort)
    ensures Denote(Aggregate(Layered(p, hotPages), kind, offset), sort) == Denote(Aggregate(p, kind, offset), sort)
    ensures Keys(Denote(Sort(Layered(p, hotPages), offset), sort), offset) == Keys(Denote(Sort(p, offset), sort), offset)
  {
    hide Denote, Layered, Sorts, SameElements, Aggregated, Keys;
    var q := Layered(p, hotPages);
    var c, c' := Denote(p, sort), Denote(q, sort);
    LayeredSameRows(p, hotPages, sort);
    KeysSameElements(c', c, offset);
    AggregatedSameElements(Keys(c', offset), Keys(c, offset), kind);
    SortedKeysEqual(sort, c', c, offset);
    DenoteOver(p, sort, kind, offset);
    DenoteOver(q, sort, kind, offset);
  }

  lemma DenoteMerge(hot: Option<Plan>, cold: Option<Plan>, sort: Sorter)
    ensures Denote(Merge(hot, cold), sort) ==
            (if hot.Some? then Denote(hot.value, sort) else []) + (if cold.Some? then Denote(cold.value, sort) else [])
  {
  }

  lemma DenoteOver(p: Plan, sort: Sorter, kind: AggregationType, offset: nat)
    ensures Denote(Aggregate(p, kind, offset), sort) == [IntBytes(Aggregated(Keys(Denote(p, sort), offset), kind))]
    ensures Denote(Sort(p, offset), sort) == sort(Denote(p, sort), offset)
  {
  }

  /** The 64-bit running sum of an aggregate cannot overflow below 2^32 rows. */
  lemma {:induction false} SumFits(ps: seq<Payload>, offset: nat)
    ensures INT_MIN * |ps| <= Sum(Keys(ps, offset)) <= INT_MAX * |ps|
    decreases |ps|
  {
    if ps != [] {
      SumFits(ps[1..], offset);
    }
  }
}
