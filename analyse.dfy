/** The pair classifier: walk the name-sorted discordant rows with a cursor,
    pair each row whose name is duplicated with the row after it, put the pair
    in the same-chromosome or the different-chromosome bucket by comparing
    the two chr_name values, and put every other row among the singles.

    The specification side describes the three buckets without a cursor:
    `MatePairs` lists every two adjacent rows that share a name, `ChrBucket`
    splits those pairs by chromosome, and `Singles` lists the rows whose name
    occurs once. The cursor walk is proved to produce exactly these whenever
    the rows are sorted by name and no name occurs more than twice. */
module Analyse {
  import opened NameOrder
  import opened Records

  datatype Result<T, E> = Ok(value: T) | Err(error: E)

  /** A mate pair: the row at the cursor and the row after it. */
  datatype Pair = Pair(mate1: Row, mate2: Row)

  /** A table cell: the text and integer columns of a row. */
  datatype Cell = Text(text: string) | Number(number: int)

  /** A table with its column labels and its rows of cells. */
  datatype Table = Table(columns: seq<string>, body: seq<seq<Cell>>)

  /** What the classifier returns: the same-chromosome pair table, the
      different-chromosome pair table, and the rows without a mate. */
  datatype Analysis = Analysis(sameChr: Table, diffChr: Table, singles: seq<Row>)

  /** The cursor sat on a duplicated name at the last row, and reading the
      mate at `index` (one past the end) fails. */
  datatype PairingError = MateIndexOutOfRange(index: nat)

  /** What the adjacency scan assumes of its input: sorted by name, and no
      name on more than two rows. */
  predicate PairingPrecondition(rows: seq<Row>)
  {
    SortedByName(rows) && forall k :: 0 <= k < |rows| ==> Occurrences(rows, rows[k].queryName) <= 2
  }

  // ---------------------------------------------------------------------
  // Duplicated names

  /** The names of rows `0 .. n-1` whose name occurs at least twice, in row order. */
  function DuplicatedAmong(rows: seq<Row>, n: nat): (dup: seq<string>)
    requires n <= |rows|
    ensures forall name :: name in dup <==>
      (exists k :: 0 <= k < n && rows[k].queryName == name) && Occurrences(rows, name) >= 2
  {
    if n == 0 then []
    else
      var name := rows[n - 1].queryName;
      DuplicatedAmong(rows, n - 1) + if Occurrences(rows, name) >= 2 then [name] else []
  }

  lemma OccurringNamesHaveRows(rows: seq<Row>)
    ensures forall name :: Occurrences(rows, name) >= 1 ==> exists k :: 0 <= k < |rows| && rows[k].queryName == name
  {
  }

  /** The names of all rows that share their name with another row, in row
      order: the names the scan pairs. */
  function DuplicatedNames(rows: seq<Row>): (dup: seq<string>)
    ensures forall name :: name in dup <==> Occurrences(rows, name) >= 2
  {
    OccurringNamesHaveRows(rows);
    DuplicatedAmong(rows, |rows|)
  }

  // ---------------------------------------------------------------------
  // The buckets, described without a cursor

  /** The pairs of adjacent rows that share a name, whose first row lies before `n`. */
  function PairsBefore(rows: seq<Row>, n: nat): seq<Pair>
    requires n <= |rows|
  {
    if n == 0 then []
    else
      PairsBefore(rows, n - 1) +
        if n < |rows| && rows[n - 1].queryName == rows[n].queryName then [Pair(rows[n - 1], rows[n])] else []
  }

  function MatePairs(rows: seq<Row>): seq<Pair>
  {
    PairsBefore(rows, |rows|)
  }

  /** The pairs of `ps` whose two mates lie on the same reference (when
      `sameChr`) or on different references (when not), in the order of `ps`. */
  function ChrBucket(ps: seq<Pair>, sameChr: bool): seq<Pair>
  {
    if ps == [] then []
    else
      var last := ps[|ps| - 1];
      ChrBucket(ps[..|ps| - 1], sameChr) +
        if (last.mate1.chrName == last.mate2.chrName) == sameChr then [last] else []
  }

  function SamePairs(rows: seq<Row>): seq<Pair>
  {
    ChrBucket(MatePairs(rows), true)
  }

  function DiffPairs(rows: seq<Row>): seq<Pair>
  {
    ChrBucket(MatePairs(rows), false)
  }

  /** The rows before `n` whose name occurs exactly once among all rows. */
  function SinglesBefore(rows: seq<Row>, n: nat): seq<Row>
    requires n <= |rows|
  {
    if n == 0 then []
    else
      SinglesBefore(rows, n - 1) +
        if Occurrences(rows, rows[n - 1].queryName) == 1 then [rows[n - 1]] else []
  }

  function Singles(rows: seq<Row>): seq<Row>
  {
    SinglesBefore(rows, |rows|)
  }

  /** The rows of a list of pairs, each pair's first mate then its second. */
  function Mates(ps: seq<Pair>): seq<Row>
  {
    if ps == [] then []
    else
      var last := ps[|ps| - 1];
      Mates(ps[..|ps| - 1]) + [last.mate1, last.mate2]
  }

  /** Row `i` starts a new name (or `i` is the end). */
  predicate GroupStart(rows: seq<Row>, i: nat)
  {
    i <= |rows| && (0 < i < |rows| ==> rows[i - 1].queryName != rows[i].queryName)
  }

  /** `xs` is `ys` with some elements left out, the rest in their order. */
  ghost predicate IsSubsequence<T>(xs: seq<T>, ys: seq<T>)
    decreases |ys|
  {
    xs == [] ||
    (ys != [] &&
      ((xs[|xs| - 1] == ys[|ys| - 1] && IsSubsequence(xs[..|xs| - 1], ys[..|ys| - 1])) ||
       IsSubsequence(xs, ys[..|ys| - 1])))
  }

  // ---------------------------------------------------------------------
  // Pair tables

  /** The column labels of a pair row before the two mate_chr columns are dropped. */
  const PairColumns: seq<string> := [
    "Read1_query_name", "Read1_chr_name", "Read1_start_pos", "Read1_MapQ", "Read1_mate_chr",
    "Read1_sequence", "Read1_cigarstring", "Read2_query_name", "Read2_chr_name", "Read2_start_pos",
    "Read2_MapQ", "Read2_mate_chr", "Read2_sequence", "Read2_cigarstring"]

  /** The positions of Read1_mate_chr and Read2_mate_chr among `PairColumns`. */
  const Read1MateChr: nat := 4
  const Read2MateChr: nat := 11

  /** The labels of a pair row as written out. */
  const PairOutputColumns: seq<string> := [
    "Read1_query_name", "Read1_chr_name", "Read1_start_pos", "Read1_MapQ",
    "Read1_sequence", "Read1_cigarstring", "Read2_query_name", "Read2_chr_name", "Read2_start_pos",
    "Read2_MapQ", "Read2_sequence", "Read2_cigarstring"]

  /** A row as seven cells, in the table's column order. */
  function Cells(r: Row): seq<Cell>
  {
    [Text(r.queryName), Text(r.chrName), Number(r.startPos), Number(r.mapQ),
     Text(r.chrOfMate), Text(r.sequence), Text(r.cigarString)]
  }

  /** A table row without its column `k`. */
  function DropColumn<T>(cells: seq<T>, k: nat): (kept: seq<T>)
    requires k < |cells|
    ensures |kept| == |cells| - 1
    ensures forall j :: 0 <= j < |kept| ==> kept[j] == if j < k then cells[j] else cells[j + 1]
  {
    cells[..k] + cells[k + 1..]
  }

  /** The fourteen columns of a pair side by side, labelled, with the two
      mate_chr columns dropped (the later one first, so that the earlier keeps
      its position). */
  function DropMateChr<T>(cells: seq<T>): seq<T>
    requires |cells| == |PairColumns|
  {
    DropColumn(DropColumn(cells, Read2MateChr), Read1MateChr)
  }

  /** A pair as one wide row: both mates side by side with the mate_chr
      columns dropped. */
  function PairRow(p: Pair): seq<Cell>
  {
    DropMateChr(Cells(p.mate1) + Cells(p.mate2))
  }

  /** The table of a bucket of pairs. An empty bucket is an empty table
      without column labels, since labels are attached only to a non-empty one. */
  function PairTable(ps: seq<Pair>): Table
  {
    if |ps| > 0 then
      Table(DropMateChr(PairColumns),
            seq(|ps|, k requires 0 <= k < |ps| => PairRow(ps[k])))
    else
      Table([], [])
  }

  /** A mate's six written cells: its row without chr_of_mate. */
  function MateCells(r: Row): seq<Cell>
  {
    [Text(r.queryName), Text(r.chrName), Number(r.startPos), Number(r.mapQ),
     Text(r.sequence), Text(r.cigarString)]
  }

  // ---------------------------------------------------------------------
  // The scan

  /** Classifies the name-sorted discordant rows. For input that meets the
      pairing precondition the result is the three buckets described above;
      an empty input gives three empty buckets; the scan fails only when the
      last row's name is duplicated and the cursor reaches it, so that its
      mate would be read one past the end. */
  method AnalyseDiscordantReads(rows: seq<Row>) returns (result: Result<Analysis, PairingError>)
    ensures PairingPrecondition(rows) ==>
      result == Ok(Analysis(PairTable(SamePairs(rows)), PairTable(DiffPairs(rows)), Singles(rows)))
    ensures result.Err? ==>
      0 < |rows| && result.error.index == |rows| && Occurrences(rows, rows[|rows| - 1].queryName) >= 2
    ensures rows == [] ==> result == Ok(Analysis(Table([], []), Table([], []), []))
  {
    var dup := DuplicatedNames(rows);
    var same: seq<Pair> := [];
    var diff: seq<Pair> := [];
    var singles: seq<Row> := [];
    var i := 0;
    while i < |rows|
      invariant i <= |rows|
      invariant Scanned(rows, i, same, diff, singles)
      decreases |rows| - i
    {
      if rows[i].queryName in dup {
        if i + 1 >= |rows| {
          LastRowUnpaired(rows, i, same, diff, singles);
          return Err(MateIndexOutOfRange(i + 1));
        }
        var pair := Pair(rows[i], rows[i + 1]);
        PairScanned(rows, i, same, diff, singles);
        if rows[i].chrName == rows[i + 1].chrName {
          same := same + [pair];
        } else {
          diff := diff + [pair];
        }
        i := i + 2;
      } else {
        SingleScanned(rows, i, same, diff, singles);
        singles := singles + [rows[i]];
        i := i + 1;
      }
    }
    result := Ok(Analysis(PairTable(same), PairTable(diff), singles));
  }

  /** What the cursor walk has built when the cursor stands at `i`. */
  ghost predicate Scanned(rows: seq<Row>, i: nat, same: seq<Pair>, diff: seq<Pair>, singles: seq<Row>)
  {
    i <= |rows| &&
    (PairingPrecondition(rows) ==>
      GroupStart(rows, i) &&
      same == ChrBucket(PairsBefore(rows, i), true) &&
      diff == ChrBucket(PairsBefore(rows, i), false) &&
      singles == SinglesBefore(rows, i))
  }

  lemma LastRowUnpaired(rows: seq<Row>, i: nat, same: seq<Pair>, diff: seq<Pair>, singles: seq<Row>)
    requires Scanned(rows, i, same, diff, singles) && i == |rows| - 1
    requires Occurrences(rows, rows[i].queryName) >= 2
    ensures !PairingPrecondition(rows)
  {
    if PairingPrecondition(rows) {
      MateFollows(rows, i);
    }
  }

  // ---------------------------------------------------------------------
  // One step of the scan

  lemma PairScanned(rows: seq<Row>, i: nat, same: seq<Pair>, diff: seq<Pair>, singles: seq<Row>)
    requires Scanned(rows, i, same, diff, singles) && i + 1 < |rows|
    requires Occurrences(rows, rows[i].queryName) >= 2
    ensures
      var pair := Pair(rows[i], rows[i + 1]);
      var sameChr := rows[i].chrName == rows[i + 1].chrName;
      Scanned(rows, i + 2, if sameChr then same + [pair] else same,
                           if sameChr then diff else diff + [pair], singles)
  {
    if PairingPrecondition(rows) {
      var pair := Pair(rows[i], rows[i + 1]);
      MateFollows(rows, i);
      PairStep(rows, i);
      ChrBucketSnoc(PairsBefore(rows, i), pair, true);
      ChrBucketSnoc(PairsBefore(rows, i), pair, false);
    }
  }

  lemma SingleScanned(rows: seq<Row>, i: nat, same: seq<Pair>, diff: seq<Pair>, singles: seq<Row>)
    requires Scanned(rows, i, same, diff, singles) && i < |rows|
    requires Occurrences(rows, rows[i].queryName) < 2
    ensures Scanned(rows, i + 1, same, diff, singles + [rows[i]])
  {
    SingleStep(rows, i);
  }

  /** At the start of a name that occurs twice, the mate is the next row and
      the row after the mate starts another name. */
  lemma MateFollows(rows: seq<Row>, i: nat)
    requires PairingPrecondition(rows) && GroupStart(rows, i) && i < |rows|
    requires Occurrences(rows, rows[i].queryName) >= 2
    ensures i + 1 < |rows| && rows[i + 1].queryName == rows[i].queryName
    ensures GroupStart(rows, i + 2)
  {
    var j := OccurrencesWitness(rows, i);
    if j < i {
      SortedContiguous(rows, j, i - 1, i);
      assert false;
    }
    SortedContiguous(rows, i, i + 1, j);
    if i + 2 < |rows| {
      ThreeCounted(rows, i);
    }
  }

  lemma ThreeCounted(rows: seq<Row>, i: nat)
    requires i + 2 < |rows|
    ensures rows[i].queryName == rows[i + 1].queryName == rows[i + 2].queryName ==>
      Occurrences(rows, rows[i].queryName) >= 3
  {
    if rows[i].queryName == rows[i + 1].queryName == rows[i + 2].queryName {
      OccurrencesAtLeastThree(rows, i, i + 1, i + 2);
    }
  }

  lemma PairStep(rows: seq<Row>, i: nat)
    requires PairingPrecondition(rows) && i + 1 < |rows|
    requires rows[i + 1].queryName == rows[i].queryName && GroupStart(rows, i + 2)
    ensures PairsBefore(rows, i + 2) == PairsBefore(rows, i) + [Pair(rows[i], rows[i + 1])]
    ensures SinglesBefore(rows, i + 2) == SinglesBefore(rows, i)
  {
    OccurrencesAtLeastTwo(rows, i, i + 1);
  }

  lemma SingleStep(rows: seq<Row>, i: nat)
    requires i < |rows| && Occurrences(rows, rows[i].queryName) < 2
    ensures PairsBefore(rows, i + 1) == PairsBefore(rows, i)
    ensures SinglesBefore(rows, i + 1) == SinglesBefore(rows, i) + [rows[i]]
    ensures GroupStart(rows, i + 1)
  {
    OccurrencesPositive(rows, i);
    OccurrencesOnce(rows, i);
  }

  lemma ChrBucketSnoc(ps: seq<Pair>, p: Pair, sameChr: bool)
    ensures ChrBucket(ps + [p], sameChr) ==
      ChrBucket(ps, sameChr) + if (p.mate1.chrName == p.mate2.chrName) == sameChr then [p] else []
  {
    assert (ps + [p])[..|ps|] == ps;
  }

  lemma MatesSnoc(ps: seq<Pair>, p: Pair)
    ensures Mates(ps + [p]) == Mates(ps) + [p.mate1, p.mate2]
  {
    assert (ps + [p])[..|ps|] == ps;
  }

  /** Stepping back from the start of a name group over a name that occurs
      twice: both of its rows lie just before, and a group starts there. */
  lemma PrevPair(rows: seq<Row>, i: nat)
    requires PairingPrecondition(rows) && GroupStart(rows, i) && 0 < i
    requires Occurrences(rows, rows[i - 1].queryName) >= 2
    ensures 2 <= i && rows[i - 2].queryName == rows[i - 1].queryName
    ensures GroupStart(rows, i - 2)
  {
    var j := OccurrencesWitness(rows, i - 1);
    if j > i - 1 {
      SortedContiguous(rows, i - 1, i, j);
      assert false;
    }
    SortedContiguous(rows, j, i - 2, i - 1);
    if i > 2 {
      ThreeCounted(rows, i - 3);
    }
  }

  // ---------------------------------------------------------------------
  // Order within a sequence

  lemma SubsequenceExtend<T>(xs: seq<T>, ys: seq<T>, y: T)
    requires IsSubsequence(xs, ys)
    ensures IsSubsequence(xs, ys + [y])
  {
    assert (ys + [y])[..|ys|] == ys;
  }

  lemma SubsequenceAppend<T>(xs: seq<T>, ys: seq<T>, z: T)
    requires IsSubsequence(xs, ys)
    ensures IsSubsequence(xs + [z], ys + [z])
  {
    assert (xs + [z])[..|xs|] == xs;
    assert (ys + [z])[..|ys|] == ys;
  }

  lemma {:induction false} SubsequenceTransitive<T>(a: seq<T>, b: seq<T>, c: seq<T>)
    requires IsSubsequence(a, b) && IsSubsequence(b, c)
    ensures IsSubsequence(a, c)
    decreases |c|
  {
    if a != [] {
      var c' := c[..|c| - 1];
      if IsSubsequence(b, c') {
        SubsequenceTransitive(a, b, c');
      } else {
        var b' := b[..|b| - 1];
        if a[|a| - 1] == b[|b| - 1] && IsSubsequence(a[..|a| - 1], b') {
          SubsequenceTransitive(a[..|a| - 1], b', c');
        } else {
          SubsequenceTransitive(a, b', c');
        }
      }
    }
  }

  // ---------------------------------------------------------------------
  // Properties of the buckets

  /** Up to the start of any name group, the mates of the pairs and the
      singles together are the rows, each exactly once. */
  lemma {:induction false} GroupsBefore(rows: seq<Row>, i: nat)
    requires PairingPrecondition(rows) && GroupStart(rows, i)
    ensures multiset(rows[..i]) == multiset(Mates(PairsBefore(rows, i))) + multiset(SinglesBefore(rows, i))
  {
    if i > 0 {
      if Occurrences(rows, rows[i - 1].queryName) >= 2 {
        PrevPair(rows, i);
        GroupsBefore(rows, i - 2);
        PairGroupBack(rows, i);
        PairGroupStep(rows[..i - 2], PairsBefore(rows, i - 2), SinglesBefore(rows, i - 2), rows[i - 2], rows[i - 1]);
      } else {
        OccurrencesOnce(rows, i - 1);
        GroupsBefore(rows, i - 1);
        SingleGroupBack(rows, i);
        SingleGroupStep(rows[..i - 1], PairsBefore(rows, i - 1), SinglesBefore(rows, i - 1), rows[i - 1]);
      }
    }
  }

  /** Up to the start of any name group, the mates of the pairs, and the
      singles, each keep the order of the rows. */
  lemma {:induction false} GroupsBeforeInOrder(rows: seq<Row>, i: nat)
    requires PairingPrecondition(rows) && GroupStart(rows, i)
    ensures IsSubsequence(Mates(PairsBefore(rows, i)), rows[..i])
    ensures IsSubsequence(SinglesBefore(rows, i), rows[..i])
  {
    if i > 0 {
      if Occurrences(rows, rows[i - 1].queryName) >= 2 {
        PrevPair(rows, i);
        GroupsBeforeInOrder(rows, i - 2);
        PairGroupBack(rows, i);
        PairGroupStepInOrder(rows[..i - 2], PairsBefore(rows, i - 2), SinglesBefore(rows, i - 2), rows[i - 2], rows[i - 1]);
      } else {
        OccurrencesOnce(rows, i - 1);
        GroupsBeforeInOrder(rows, i - 1);
        SingleGroupBack(rows, i);
        SingleGroupStepInOrder(rows[..i - 1], PairsBefore(rows, i - 1), SinglesBefore(rows, i - 1), rows[i - 1]);
      }
    }
  }

  /** The last two rows before a group start share a name: they add one pair
      and no single. */
  lemma PairGroupBack(rows: seq<Row>, i: nat)
    requires 2 <= i <= |rows| && GroupStart(rows, i) && rows[i - 2].queryName == rows[i - 1].queryName
    ensures rows[..i] == rows[..i - 2] + [rows[i - 2], rows[i - 1]]
    ensures PairsBefore(rows, i) == PairsBefore(rows, i - 2) + [Pair(rows[i - 2], rows[i - 1])]
    ensures SinglesBefore(rows, i) == SinglesBefore(rows, i - 2)
  {
    OccurrencesAtLeastTwo(rows, i - 2, i - 1);
  }

  /** The last row before a group start has a name of its own: it adds one
      single and no pair. */
  lemma SingleGroupBack(rows: seq<Row>, i: nat)
    requires 1 <= i <= |rows| && GroupStart(rows, i) && Occurrences(rows, rows[i - 1].queryName) < 2
    ensures rows[..i] == rows[..i - 1] + [rows[i - 1]]
    ensures PairsBefore(rows, i) == PairsBefore(rows, i - 1)
    ensures SinglesBefore(rows, i) == SinglesBefore(rows, i - 1) + [rows[i - 1]]
  {
    OccurrencesPositive(rows, i - 1);
  }

  lemma PairGroupStep(prefix: seq<Row>, ps: seq<Pair>, singles: seq<Row>, a: Row, b: Row)
    requires multiset(prefix) == multiset(Mates(ps)) + multiset(singles)
    ensures multiset(prefix + [a, b]) == multiset(Mates(ps + [Pair(a, b)])) + multiset(singles)
  {
    MatesSnoc(ps, Pair(a, b));
  }

  lemma PairGroupStepInOrder(prefix: seq<Row>, ps: seq<Pair>, singles: seq<Row>, a: Row, b: Row)
    requires IsSubsequence(Mates(ps), prefix) && IsSubsequence(singles, prefix)
    ensures IsSubsequence(Mates(ps + [Pair(a, b)]), prefix + [a, b])
    ensures IsSubsequence(singles, prefix + [a, b])
  {
    MatesSnoc(ps, Pair(a, b));
    SubsequenceAppendTwo(Mates(ps), prefix, a, b);
    SubsequenceExtend(singles, prefix, a);
    SubsequenceExtend(singles, prefix + [a], b);
    assert prefix + [a] + [b] == prefix + [a, b];
  }

  lemma SingleGroupStep(prefix: seq<Row>, ps: seq<Pair>, singles: seq<Row>, r: Row)
    requires multiset(prefix) == multiset(Mates(ps)) + multiset(singles)
    ensures multiset(prefix + [r]) == multiset(Mates(ps)) + multiset(singles + [r])
  {
  }

  lemma SingleGroupStepInOrder(prefix: seq<Row>, ps: seq<Pair>, singles: seq<Row>, r: Row)
    requires IsSubsequence(Mates(ps), prefix) && IsSubsequence(singles, prefix)
    ensures IsSubsequence(Mates(ps), prefix + [r])
    ensures IsSubsequence(singles + [r], prefix + [r])
  {
    SubsequenceExtend(Mates(ps), prefix, r);
    SubsequenceAppend(singles, prefix, r);
  }

  lemma SubsequenceAppendTwo<T>(xs: seq<T>, ys: seq<T>, a: T, b: T)
    requires IsSubsequence(xs, ys)
    ensures IsSubsequence(xs + [a, b], ys + [a, b])
  {
    SubsequenceAppend(xs, ys, a);
    SubsequenceAppend(xs + [a], ys + [a], b);
    assert xs + [a] + [b] == xs + [a, b];
    assert ys + [a] + [b] == ys + [a, b];
  }

  lemma SubsequenceExtendTwo<T>(xs: seq<T>, ys: seq<T>, a: T, b: T)
    requires IsSubsequence(xs, ys)
    ensures IsSubsequence(xs, ys + [a, b])
  {
    SubsequenceExtend(xs, ys, a);
    SubsequenceExtend(xs, ys + [a], b);
    assert ys + [a] + [b] == ys + [a, b];
  }

  /** Splitting pairs by chromosome loses no mate and adds none. */
  lemma {:induction false} ChrBucketsPartition(ps: seq<Pair>)
    ensures multiset(Mates(ChrBucket(ps, true))) + multiset(Mates(ChrBucket(ps, false))) == multiset(Mates(ps))
  {
    if ps != [] {
      var init, p := ps[..|ps| - 1], ps[|ps| - 1];
      var same, diff := ChrBucket(init, true), ChrBucket(init, false);
      ChrBucketsPartition(init);
      assert Mates(ps) == Mates(init) + [p.mate1, p.mate2];
      if p.mate1.chrName == p.mate2.chrName {
        assert ChrBucket(ps, true) == same + [p] && ChrBucket(ps, false) == diff;
        BucketGains(same, diff, Mates(init), p);
      } else {
        assert ChrBucket(ps, false) == diff + [p] && ChrBucket(ps, true) == same;
        BucketGains(diff, same, Mates(init), p);
      }
    }
  }

  lemma BucketGains(gains: seq<Pair>, keeps: seq<Pair>, before: seq<Row>, p: Pair)
    requires multiset(Mates(gains)) + multiset(Mates(keeps)) == multiset(before)
    ensures multiset(Mates(gains + [p])) + multiset(Mates(keeps)) == multiset(before + [p.mate1, p.mate2])
  {
    MatesSnoc(gains, p);
  }

  /** Each chromosome bucket keeps the mates in the order of the pairs. */
  lemma {:induction false} ChrBucketInOrder(ps: seq<Pair>, sameChr: bool)
    ensures IsSubsequence(Mates(ChrBucket(ps, sameChr)), Mates(ps))
  {
    if ps != [] {
      var init, p := ps[..|ps| - 1], ps[|ps| - 1];
      var bucket := ChrBucket(init, sameChr);
      ChrBucketInOrder(init, sameChr);
      assert Mates(ps) == Mates(init) + [p.mate1, p.mate2];
      if (p.mate1.chrName == p.mate2.chrName) == sameChr {
        assert ChrBucket(ps, sameChr) == bucket + [p];
        MatesSnoc(bucket, p);
        SubsequenceAppendTwo(Mates(bucket), Mates(init), p.mate1, p.mate2);
      } else {
        assert ChrBucket(ps, sameChr) == bucket;
        SubsequenceExtendTwo(Mates(bucket), Mates(init), p.mate1, p.mate2);
      }
    }
  }

  /** Nothing is lost and nothing is duplicated: the mates of the
      same-chromosome pairs, the mates of the different-chromosome pairs and
      the singles are together exactly the input rows. */
  lemma Partition(rows: seq<Row>)
    requires PairingPrecondition(rows)
    ensures multiset(rows) ==
      multiset(Mates(SamePairs(rows))) + multiset(Mates(DiffPairs(rows))) + multiset(Singles(rows))
  {
    GroupsBefore(rows, |rows|);
    ChrBucketsPartition(MatePairs(rows));
    assert rows[..|rows|] == rows;
  }

  /** Every bucket keeps the order of the sorted input. */
  lemma BucketsInInputOrder(rows: seq<Row>)
    requires PairingPrecondition(rows)
    ensures IsSubsequence(Mates(SamePairs(rows)), rows)
    ensures IsSubsequence(Mates(DiffPairs(rows)), rows)
    ensures IsSubsequence(Singles(rows), rows)
  {
    GroupsBeforeInOrder(rows, |rows|);
    assert rows[..|rows|] == rows;
    ChrBucketInOrder(MatePairs(rows), true);
    ChrBucketInOrder(MatePairs(rows), false);
    SubsequenceTransitive(Mates(SamePairs(rows)), Mates(MatePairs(rows)), rows);
    SubsequenceTransitive(Mates(DiffPairs(rows)), Mates(MatePairs(rows)), rows);
  }

  lemma {:induction false} SinglesBeforeMembers(rows: seq<Row>, n: nat, r: Row)
    requires n <= |rows|
    ensures r in SinglesBefore(rows, n) <==>
      (exists k :: 0 <= k < n && rows[k] == r) && Occurrences(rows, r.queryName) == 1
  {
    if n > 0 {
      SinglesBeforeMembers(rows, n - 1, r);
    }
  }

  /** A row is a single exactly when its name occurs once among all rows. */
  lemma SinglesMembers(rows: seq<Row>, r: Row)
    ensures r in Singles(rows) <==> r in rows && Occurrences(rows, r.queryName) == 1
  {
    SinglesBeforeMembers(rows, |rows|, r);
  }

  lemma {:induction false} PairsBeforeMembers(rows: seq<Row>, n: nat, p: Pair)
    requires n <= |rows|
    ensures p in PairsBefore(rows, n) <==>
      exists k :: 0 <= k < n && k + 1 < |rows| && rows[k].queryName == rows[k + 1].queryName &&
        p == Pair(rows[k], rows[k + 1])
  {
    if n > 0 {
      PairsBeforeMembers(rows, n - 1, p);
    }
  }

  /** Every pair is two adjacent rows with one name, the first mate at some
      index `k` and the second at `k + 1`, and every two such rows are a pair. */
  lemma MatePairsMembers(rows: seq<Row>, p: Pair)
    ensures p in MatePairs(rows) <==>
      exists k :: 0 <= k && k + 1 < |rows| && rows[k].queryName == rows[k + 1].queryName &&
        p == Pair(rows[k], rows[k + 1])
  {
    PairsBeforeMembers(rows, |rows|, p);
  }

  /** A pair is in the same-chromosome bucket exactly when its mates' chr_name
      values are equal, and in the different-chromosome bucket exactly when
      they differ. */
  lemma {:induction false} ChrBucketMembers(ps: seq<Pair>, p: Pair, sameChr: bool)
    ensures p in ChrBucket(ps, sameChr) <==> p in ps && (p.mate1.chrName == p.mate2.chrName) == sameChr
  {
    if ps != [] {
      ChrBucketMembers(ps[..|ps| - 1], p, sameChr);
      assert ps == ps[..|ps| - 1] + [ps[|ps| - 1]];
    }
  }

  /** A wide pair row is mate 1's cells then mate 2's, each without its
      chr_of_mate: twelve cells out of fourteen. */
  lemma PairRowLayout(p: Pair)
    ensures PairRow(p) == MateCells(p.mate1) + MateCells(p.mate2)
  {
  }

  /** The labels dropped are the two mate_chr labels, and the labels of a
      non-empty pair table are the twelve written columns. */
  lemma PairTableColumns()
    ensures PairColumns[Read1MateChr] == "Read1_mate_chr" && PairColumns[Read2MateChr] == "Read2_mate_chr"
    ensures DropMateChr(PairColumns) == PairOutputColumns
  {
  }

  /** In the table of a chromosome bucket every row has twelve cells, both
      mates carry the same query name, and their chr_name cells are equal in
      the same-chromosome table and differ in the other. */
  lemma BucketTable(rows: seq<Row>, sameChr: bool)
    ensures var ps := ChrBucket(MatePairs(rows), sameChr);
      var t := PairTable(ps);
      |t.body| == |ps| &&
      (ps != [] ==> t.columns == PairOutputColumns) &&
      forall k :: 0 <= k < |t.body| ==>
        |t.body[k]| == 12 && t.body[k][0] == t.body[k][6] &&
        (t.body[k][1] == t.body[k][7]) == sameChr
  {
    var ps := ChrBucket(MatePairs(rows), sameChr);
    PairTableColumns();
    forall k | 0 <= k < |ps|
      ensures var row := PairRow(ps[k]);
        |row| == 12 && row[0] == row[6] && (row[1] == row[7]) == sameChr
    {
      var p := ps[k];
      ChrBucketMembers(MatePairs(rows), p, sameChr);
      MatePairsMembers(rows, p);
      PairRowLayout(p);
    }
  }
}
