/**
 * The chord catalog `CHORDS`: `processChords` flattens the nested chord
 * dataset (root note -> variants -> positions) into one list of
 * `{chord, midi}` records, appended in root, then variant, then position
 * order; the tooltip looks up three of them by the digits of a grid code.
 */
module Catalog {
  import opened GridCode
  import opened Sequences
  import opened Arith

  /** One fingering of a chord; the loop only reads its MIDI notes. */
  datatype Position = Position(midi: seq<int>)

  /** A chord variant of one root: its key, suffix and positions. */
  datatype Variant = Variant(key: string, suffix: string, positions: seq<Position>)

  /** A catalog record: the label `<key><suffix> <position index>` and the MIDI notes. */
  datatype Entry = Entry(chord: string, midi: seq<int>)

  /**
   * The dataset as `Object.entries` yields it: one list of variants per root
   * note, in the order of the root keys.
   */
  type Dataset = seq<seq<Variant>>

  predicate IsDecimal(s: string) {
    forall k :: 0 <= k < |s| ==> '0' <= s[k] <= '9'
  }

  function DigitChar(d: nat): (c: char)
    requires d < 10
    ensures '0' <= c <= '9' && c as int - '0' as int == d
  {
    (d + '0' as int) as char
  }

  /** JavaScript's `${i}` for a non-negative integer: its decimal digits without leading zeros. */
  function DecimalString(n: nat): (s: string)
    ensures |s| >= 1 && IsDecimal(s)
    ensures s[0] == '0' ==> n == 0 && |s| == 1
  {
    if n < 10 then [DigitChar(n)] else DecimalString(n / 10) + [DigitChar(n % 10)]
  }

  /** The number a string of decimal digits denotes. */
  function DecimalValue(s: string): nat
    requires IsDecimal(s)
  {
    if |s| == 0 then 0 else DecimalValue(s[..|s| - 1]) * 10 + (s[|s| - 1] as int - '0' as int)
  }

  /** Reading the decimal string of `n` gives `n` back. */
  lemma {:induction false} DecimalRoundTrip(n: nat)
    ensures DecimalValue(DecimalString(n)) == n
  {
    if n >= 10 {
      var s := DecimalString(n);
      assert s[..|s| - 1] == DecimalString(n / 10);
      DecimalRoundTrip(n / 10);
    }
  }

  /** A numeral that does not start with `0` denotes a positive number. */
  lemma {:induction false} DecimalValuePositive(s: string)
    requires |s| >= 1 && IsDecimal(s) && s[0] != '0'
    ensures DecimalValue(s) >= 1
    decreases |s|
  {
    if |s| > 1 {
      DecimalValuePositive(s[..|s| - 1]);
    }
  }

  /**
   * `DecimalString(n)` is the only numeral for `n` without leading zeros:
   * any non-empty decimal string that starts with `0` only when it is `"0"`
   * and denotes `n` is `DecimalString(n)`.
   */
  lemma {:induction false} DecimalUnique(s: string, n: nat)
    requires |s| >= 1 && IsDecimal(s) && (s[0] == '0' ==> |s| == 1)
    requires DecimalValue(s) == n
    ensures s == DecimalString(n)
    decreases |s|
  {
    var init, d := s[..|s| - 1], s[|s| - 1] as int - '0' as int;
    if |s| == 1 {
      assert DecimalValue(s) == d;
    } else {
      DecimalValuePositive(init);
      DivModOf(n, 10, DecimalValue(init), d);
      DecimalUnique(init, n / 10);
      assert s == init + [s[|s| - 1]];
    }
  }

  /** The label of position `i` of variant `v`: `${v.key}${v.suffix} ${i}`. */
  function Label(v: Variant, i: nat): (l: string)
    ensures var n := |v.key + v.suffix + " "|;
      n < |l| && l[..n] == v.key + v.suffix + " " &&
      IsDecimal(l[n..]) && DecimalValue(l[n..]) == i &&
      (l[n] == '0' ==> |l| == n + 1)
  {
    var prefix := v.key + v.suffix + " ";
    var l := prefix + DecimalString(i);
    assert l[..|prefix|] == prefix && l[|prefix|..] == DecimalString(i);
    DecimalRoundTrip(i);
    l
  }

  /** Different positions of one variant get different labels. */
  lemma LabelsDistinct(v: Variant, i: nat, j: nat)
    requires Label(v, i) == Label(v, j)
    ensures i == j
  {
  }

  /** The record pushed for position `i` of variant `v`. */
  function MakeEntry(v: Variant, i: nat): Entry
    requires i < |v.positions|
  {
    Entry(Label(v, i), v.positions[i].midi)
  }

  /** The records of the first `n` positions of `v`, one per position, in order. */
  function PositionEntries(v: Variant, n: nat): (es: seq<Entry>)
    requires n <= |v.positions|
    ensures |es| == n
  {
    if n == 0 then [] else PositionEntries(v, n - 1) + [MakeEntry(v, n - 1)]
  }

  /** Record `i` of the first `n` positions of `v` is the record of position `i`. */
  lemma {:induction false} PositionEntriesAt(v: Variant, n: nat, i: nat)
    requires i < n <= |v.positions|
    ensures PositionEntries(v, n)[i] == MakeEntry(v, i)
  {
    if i < n - 1 {
      PositionEntriesAt(v, n - 1, i);
    }
  }

  /** All the records of one variant. */
  function VariantEntries(v: Variant): seq<Entry> {
    PositionEntries(v, |v.positions|)
  }

  /** The number of positions of one variant. */
  function Positions(v: Variant): nat {
    |v.positions|
  }

  /** The number of positions over a list of variants. */
  function RootSize(vs: seq<Variant>): nat {
    SumMap(vs, Positions)
  }

  /** The number of positions over the whole dataset. */
  function DataSize(data: Dataset): nat {
    SumMap(data, RootSize)
  }

  /** The records of one root note: those of its variants, in variant order. */
  function RootEntries(vs: seq<Variant>): seq<Entry> {
    ConcatMap(vs, VariantEntries)
  }

  /** The records of the whole dataset: those of its roots, in root order. */
  function Flatten(data: Dataset): seq<Entry> {
    ConcatMap(data, RootEntries)
  }

  /** A root gives one record per position of each of its variants. */
  lemma RootEntriesLength(vs: seq<Variant>)
    ensures |RootEntries(vs)| == RootSize(vs)
  {
    ConcatMapLength(vs, VariantEntries, Positions);
  }

  /** `processChords` adds exactly as many records as the dataset has positions. */
  lemma FlattenLength(data: Dataset)
    ensures |Flatten(data)| == DataSize(data)
  {
    forall vs: seq<Variant> ensures |RootEntries(vs)| == RootSize(vs) {
      RootEntriesLength(vs);
    }
    ConcatMapLength(data, RootEntries, RootSize);
  }

  /** Where the records of variant `j` of root `r` begin in the flattened catalog. */
  function Offset(data: Dataset, r: nat, j: nat): nat
    requires r < |data| && j <= |data[r]|
  {
    DataSize(data[..r]) + RootSize(data[r][..j])
  }

  /** Position `i` of variant `j` in a list of variants is recorded at `RootSize(vs[..j]) + i`. */
  lemma RootEntriesAt(vs: seq<Variant>, j: nat, i: nat)
    requires j < |vs| && i < |vs[j].positions|
    ensures RootSize(vs[..j]) + i < |RootEntries(vs)|
    ensures RootEntries(vs)[RootSize(vs[..j]) + i] == MakeEntry(vs[j], i)
  {
    ConcatMapAt(vs, VariantEntries, Positions, j, i);
    PositionEntriesAt(vs[j], |vs[j].positions|, i);
  }

  /**
   * Position `i` of variant `j` of root `r` is recorded at `Offset(data, r, j) + i`,
   * with its label and its MIDI notes.
   */
  lemma FlattenAt(data: Dataset, r: nat, j: nat, i: nat)
    requires r < |data| && j < |data[r]| && i < |data[r][j].positions|
    ensures Offset(data, r, j) + i < |Flatten(data)|
    ensures Flatten(data)[Offset(data, r, j) + i] == Entry(Label(data[r][j], i), data[r][j].positions[i].midi)
  {
    RootEntriesAt(data[r], j, i);
    RootEntriesLength(data[r]);
    FlattenRootAt(data, r, RootSize(data[r][..j]) + i);
  }

  /** Record `k` of root `r` sits at `DataSize(data[..r]) + k` of the flattened catalog. */
  lemma FlattenRootAt(data: Dataset, r: nat, k: nat)
    requires r < |data| && k < |RootEntries(data[r])|
    ensures DataSize(data[..r]) + k < |Flatten(data)|
    ensures Flatten(data)[DataSize(data[..r]) + k] == RootEntries(data[r])[k]
  {
    forall vs: seq<Variant> ensures |RootEntries(vs)| == RootSize(vs) {
      RootEntriesLength(vs);
    }
    ConcatMapAt(data, RootEntries, RootSize, r, k);
  }

  /**
   * Records appear in root order, then variant order, then position order:
   * a lexicographically earlier (root, variant, position) gets an earlier index.
   */
  lemma FlattenOrder(data: Dataset, r: nat, j: nat, i: nat, r': nat, j': nat, i': nat)
    requires r < |data| && j < |data[r]| && i < |data[r][j].positions|
    requires r' < |data| && j' < |data[r']| && i' < |data[r'][j'].positions|
    requires r < r' || (r == r' && j < j') || (r == r' && j == j' && i < i')
    ensures Offset(data, r, j) + i < Offset(data, r', j') + i'
  {
    SumMapPrefix(data[r], Positions, j);
    if r < r' {
      SumMapPrefix(data[..r'], RootSize, r);
      assert data[..r'][..r] == data[..r];
    } else if j < j' {
      SumMapPrefix(data[r][..j'], Positions, j);
      assert data[r][..j'][..j] == data[r][..j];
    }
  }

  /** Every digit of `code` is an index into a catalog of `n` records. */
  predicate Indexes(code: seq<nat>, n: nat) {
    forall k :: 0 <= k < |code| ==> code[k] < n
  }

  /**
   * The tooltip's unchecked `CHORDS[abc[k]]` is in range for every grid point
   * exactly when the catalog holds more than 2041 records.
   */
  lemma EveryCodeIndexesIff(n: nat)
    ensures (forall x: nat, y: nat :: OnGrid(x, y) ==> Indexes(GetCode(x, y), n)) <==> n > Radix
  {
    if n <= Radix {
      TopDigitReachesRadix();
      assert !Indexes(GetCode(LonSteps, LatSteps), n);
    }
  }

  /** The catalog `CHORDS`, filled by `processChords` and read by the tooltip. */
  class ChordCatalog {
    var chords: seq<Entry>

    /** `let CHORDS = []`. */
    constructor ()
      ensures chords == []
    {
      chords := [];
    }

    /**
     * `processChords`: push one record per position of every variant of every
     * root. Nothing is cleared first, so earlier records stay in front and a
     * second call appends the same records again.
     */
    method ProcessChords(data: Dataset)
      modifies this
      ensures chords == old(chords) + Flatten(data)
    {
      var r := 0;
      while r < |data|
        invariant 0 <= r <= |data|
        invariant chords == old(chords) + Flatten(data[..r])
      {
        PushVariants(data[r]);
        assert data[..r + 1][..r] == data[..r];
        r := r + 1;
      }
      assert data[..|data|] == data;
    }

    /** The middle loop of `processChords`: the records of every variant of one root, in order. */
    method PushVariants(variants: seq<Variant>)
      modifies this
      ensures chords == old(chords) + RootEntries(variants)
    {
      var j := 0;
      while j < |variants|
        invariant 0 <= j <= |variants|
        invariant chords == old(chords) + RootEntries(variants[..j])
      {
        PushPositions(variants[j]);
        assert variants[..j + 1][..j] == variants[..j];
        j := j + 1;
      }
      assert variants[..|variants|] == variants;
    }

    /** The innermost loop of `processChords`: one record per position of `v`. */
    method PushPositions(v: Variant)
      modifies this
      ensures chords == old(chords) + VariantEntries(v)
    {
      var i := 0;
      while i < |v.positions|
        invariant 0 <= i <= |v.positions|
        invariant chords == old(chords) + PositionEntries(v, i)
      {
        chords := chords + [Entry(v.key + v.suffix + " " + DecimalString(i), v.positions[i].midi)];
        i := i + 1;
      }
    }

    /**
     * The tooltip's three lookups `CHORDS[abc[0]]`, `CHORDS[abc[1]]` and
     * `CHORDS[abc[2]]`; each digit must index the catalog.
     */
    method ChordsFor(abc: seq<nat>) returns (entries: seq<Entry>)
      requires |abc| == 3 && Indexes(abc, |chords|)
      ensures |entries| == 3
      ensures forall k :: 0 <= k < 3 ==> entries[k] == chords[abc[k]]
    {
      entries := [chords[abc[0]], chords[abc[1]], chords[abc[2]]];
    }
  }
}
