/** The record extractor: keep the alignment records whose FLAG is one of the
    eight discordant values, project each to a seven-column row, and sort the
    rows by read name. The BAM reader is replaced by its output, the records
    in file order. */
module Extract {
  import opened NameOrder
  import opened Records

  /** The FLAG values the parser treats as discordant, in the order listed. */
  const DiscordantFlags: seq<Flag> := [113, 177, 81, 161, 97, 145, 65, 129]

  /** A record is kept when its FLAG equals one of the listed values exactly. */
  predicate IsDiscordant(read: AlignedRead)
  {
    read.flag in DiscordantFlags
  }

  /** What the eight values have in common, read as bits: the read is paired
      (0x1), it is exactly one of first (0x40) or last (0x80) segment, and no
      bit outside 0xF1 is set. What makes these records discordant is that
      0x2 (each segment properly aligned) is clear; the same mask also rules
      out unmapped read or mate, secondary, QC-failed, duplicate and
      supplementary records. Strand bits 0x10 and 0x20 take every combination. */
  lemma DiscordantFlagBits(f: Flag)
    ensures f in DiscordantFlags <==>
      (f & 0x1 != 0) && ((f & 0x40 != 0) != (f & 0x80 != 0)) && (f & !0xF1 == 0)
  {
  }

  /** The seven values the table keeps of a record; the FLAG is not among them. */
  function Project(read: AlignedRead): Row
  {
    Row(read.queryName, read.referenceName, read.referenceStart, read.mappingQuality,
        read.nextReferenceName, read.sequence, read.cigarString)
  }

  /** The projected rows of the discordant records, in file order. */
  function KeptRows(alignments: seq<AlignedRead>): (rows: seq<Row>)
    ensures |rows| <= |alignments|
  {
    if alignments == [] then []
    else
      var last := alignments[|alignments| - 1];
      KeptRows(alignments[..|alignments| - 1]) + if IsDiscordant(last) then [Project(last)] else []
  }

  /** A row is kept exactly when some discordant record projects to it. */
  lemma {:induction false} KeptRowsMembers(alignments: seq<AlignedRead>, r: Row)
    ensures r in KeptRows(alignments) <==>
      exists k :: 0 <= k < |alignments| && IsDiscordant(alignments[k]) && Project(alignments[k]) == r
  {
    if alignments != [] {
      var init := alignments[..|alignments| - 1];
      KeptRowsMembers(init, r);
      assert forall k :: 0 <= k < |init| ==> init[k] == alignments[k];
    }
  }

  /** Kept rows keep the file order of their records: the discordant records of
      a longer input extend those of its prefix. */
  lemma {:induction false} KeptRowsPrefix(alignments: seq<AlignedRead>, n: nat)
    requires n <= |alignments|
    ensures KeptRows(alignments[..n]) <= KeptRows(alignments)
  {
    if n < |alignments| {
      KeptRowsPrefix(alignments[..|alignments| - 1], n);
      assert alignments[..|alignments| - 1][..n] == alignments[..n];
    } else {
      assert alignments[..n] == alignments;
    }
  }

  /** Inserts `r` before the first row whose name it does not exceed. */
  function Insert(r: Row, rows: seq<Row>): (result: seq<Row>)
    requires SortedByName(rows)
    ensures SortedByName(result)
    ensures multiset(result) == multiset(rows) + multiset{r}
  {
    if rows == [] then [r]
    else if LexLe(r.queryName, rows[0].queryName) then
      InsertFrontSorted(r, rows);
      [r] + rows
    else
      var rest := Insert(r, rows[1..]);
      InsertBehind(r, rows, rest);
      [rows[0]] + rest
  }

  lemma InsertBehind(r: Row, rows: seq<Row>, rest: seq<Row>)
    requires SortedByName(rows) && rows != [] && !LexLe(r.queryName, rows[0].queryName)
    requires SortedByName(rest) && multiset(rest) == multiset(rows[1..]) + multiset{r}
    ensures SortedByName([rows[0]] + rest)
    ensures multiset([rows[0]] + rest) == multiset(rows) + multiset{r}
  {
    assert rows == [rows[0]] + rows[1..];
    forall x | x in multiset(rest)
      ensures LexLe(rows[0].queryName, x.queryName)
    {
      if x == r {
        LexLeTotal(r.queryName, rows[0].queryName);
      } else {
        assert x in rows[1..];
        var k :| 0 <= k < |rows[1..]| && rows[1..][k] == x;
        assert rows[k + 1] == x;
      }
    }
    InsertBehindSorted(rows[0], rest);
  }

  lemma InsertFrontSorted(r: Row, rows: seq<Row>)
    requires SortedByName(rows) && rows != [] && LexLe(r.queryName, rows[0].queryName)
    ensures SortedByName([r] + rows)
  {
    forall j | 0 < j < |rows| + 1
      ensures LexLe(r.queryName, ([r] + rows)[j].queryName)
    {
      if j > 1 {
        LexLeTransitive(r.queryName, rows[0].queryName, rows[j - 1].queryName);
      }
    }
  }

  lemma InsertBehindSorted(first: Row, rest: seq<Row>)
    requires SortedByName(rest)
    requires forall x | x in multiset(rest) :: LexLe(first.queryName, x.queryName)
    ensures SortedByName([first] + rest)
  {
  }

  /** The sort by read name. The model sorts by insertion; only the contract
      is relied upon: the result is a reordering of the input whose names are
      non-decreasing. Rows with equal names may come out in any order. */
  function SortByName(rows: seq<Row>): (sorted: seq<Row>)
    ensures SortedByName(sorted)
    ensures multiset(sorted) == multiset(rows)
  {
    if rows == [] then []
    else
      assert rows == [rows[0]] + rows[1..];
      Insert(rows[0], SortByName(rows[1..]))
  }

  /** Keeps the discordant records of `alignments`, projects them and sorts them by
      name: the result is sorted, and it holds exactly the projected
      discordant records, each as often as it occurs. */
  method ExtractDiscordantReads(alignments: seq<AlignedRead>) returns (rows: seq<Row>)
    ensures SortedByName(rows)
    ensures multiset(rows) == multiset(KeptRows(alignments))
    ensures forall r :: r in rows <==>
      exists k :: 0 <= k < |alignments| && IsDiscordant(alignments[k]) && Project(alignments[k]) == r
  {
    var kept: seq<Row> := [];
    for i := 0 to |alignments|
      invariant kept == KeptRows(alignments[..i])
    {
      if IsDiscordant(alignments[i]) {
        kept := kept + [Project(alignments[i])];
      }
      assert alignments[..i + 1][..i] == alignments[..i];
    }
    assert alignments[..|alignments|] == alignments;
    rows := SortByName(kept);
    forall r
      ensures r in rows <==>
        exists k :: 0 <= k < |alignments| && IsDiscordant(alignments[k]) && Project(alignments[k]) == r
    {
      assert r in rows <==> r in multiset(rows);
      KeptRowsMembers(alignments, r);
    }
  }
}
