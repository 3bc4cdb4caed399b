/** The alignment records the parser reads and the seven-column rows it keeps
    of them, with the name-based facts both stages rely on: how often a read
    name occurs, and what sorting by name implies about equal names. */
module Records {
  import opened NameOrder

  /** The SAM FLAG field: a 16-bit mask (section 1.4 of the SAM/BAM Format
      Specification). */
  type Flag = bv16

  /** One alignment record, as the BAM reader hands it over: the eight values
      the parser looks at. */
  datatype AlignedRead = AlignedRead(
    queryName: string,
    flag: Flag,
    referenceName: string,
    referenceStart: int,
    mappingQuality: int,
    cigarString: string,
    nextReferenceName: string,
    sequence: string)

  /** One row of the discordant-read table, in the table's column order:
      query_name, chr_name, start_pos, MapQ, chr_of_mate, seq, CigarString. */
  datatype Row = Row(
    queryName: string,
    chrName: string,
    startPos: int,
    mapQ: int,
    chrOfMate: string,
    sequence: string,
    cigarString: string)

  /** The query_name column. */
  function Names(rows: seq<Row>): (names: seq<string>)
    ensures |names| == |rows|
    ensures forall k :: 0 <= k < |rows| ==> names[k] == rows[k].queryName
  {
    seq(|rows|, k requires 0 <= k < |rows| => rows[k].queryName)
  }

  /** How many rows carry the read name `name`. */
  function Occurrences(rows: seq<Row>, name: string): nat
  {
    multiset(Names(rows))[name]
  }

  /** Names are non-decreasing in lexicographic order, between any two rows. */
  predicate SortedByName(rows: seq<Row>)
  {
    forall i, j :: 0 <= i < j < |rows| ==> LexLe(rows[i].queryName, rows[j].queryName)
  }

  lemma OccurrencesPositive(rows: seq<Row>, i: nat)
    requires i < |rows|
    ensures Occurrences(rows, rows[i].queryName) >= 1
  {
  }

  /** Two different rows with one name make that name occur at least twice. */
  lemma OccurrencesAtLeastTwo(rows: seq<Row>, i: nat, j: nat)
    requires i < j < |rows| && rows[i].queryName == rows[j].queryName
    ensures Occurrences(rows, rows[i].queryName) >= 2
  {
    var names := Names(rows);
    assert names == names[..j] + names[j..];
    assert names[..j][i] == rows[i].queryName;
    assert names[j..][0] == rows[i].queryName;
  }

  /** Three different rows with one name make that name occur at least three times. */
  lemma OccurrencesAtLeastThree(rows: seq<Row>, i: nat, j: nat, k: nat)
    requires i < j < k < |rows|
    requires rows[i].queryName == rows[j].queryName == rows[k].queryName
    ensures Occurrences(rows, rows[i].queryName) >= 3
  {
    var names := Names(rows);
    var name := rows[i].queryName;
    assert names == names[..j] + names[j..k] + names[k..];
    assert names[..j][i] == name;
    assert names[j..k][0] == name;
    assert names[k..][0] == name;
  }

  /** A name that occurs at least twice has a second row besides row `i`. */
  lemma OccurrencesWitness(rows: seq<Row>, i: nat) returns (j: nat)
    requires i < |rows| && Occurrences(rows, rows[i].queryName) >= 2
    ensures j < |rows| && j != i && rows[j].queryName == rows[i].queryName
  {
    var names := Names(rows);
    var name := rows[i].queryName;
    var before, after := names[..i], names[i + 1..];
    assert names == before + [name] + after;
    assert multiset(names)[name] == multiset(before)[name] + 1 + multiset(after)[name];
    if multiset(before)[name] > 0 {
      assert name in before;
      var k :| 0 <= k < |before| && before[k] == name;
      j := k;
    } else {
      assert name in after;
      var k :| 0 <= k < |after| && after[k] == name;
      j := i + 1 + k;
    }
  }

  /** A name that occurs only once belongs to no row but row `i`. */
  lemma OccurrencesOnce(rows: seq<Row>, i: nat)
    requires i < |rows| && Occurrences(rows, rows[i].queryName) < 2
    ensures forall j :: 0 <= j < |rows| && j != i ==> rows[j].queryName != rows[i].queryName
  {
    forall j | 0 <= j < |rows| && j != i
      ensures rows[j].queryName != rows[i].queryName
    {
      if j < i {
        SharedNameCounted(rows, j, i);
      } else {
        SharedNameCounted(rows, i, j);
      }
    }
  }

  lemma SharedNameCounted(rows: seq<Row>, i: nat, j: nat)
    requires i < j < |rows|
    ensures rows[i].queryName == rows[j].queryName ==> Occurrences(rows, rows[i].queryName) >= 2
  {
    if rows[i].queryName == rows[j].queryName {
      OccurrencesAtLeastTwo(rows, i, j);
    }
  }

  /** In a name-sorted table, rows that share a name are contiguous: every row
      between two rows of one name has that name too. */
  lemma SortedContiguous(rows: seq<Row>, i: nat, j: nat, k: nat)
    requires SortedByName(rows)
    requires i <= j <= k < |rows| && rows[i].queryName == rows[k].queryName
    ensures rows[j].queryName == rows[i].queryName
  {
    if i < j < k {
      LexLeAntisymmetric(rows[i].queryName, rows[j].queryName);
    } else if i < j {
      assert j == k;
    }
  }
}
