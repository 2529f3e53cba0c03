/**
  The Engine: labels every data row of a CSV table with a group id. Each row's
  identifying fields are normalized by the Matcher into keys; the first key
  already known decides the row's group, otherwise a new id is minted, and
  every key of the row not yet known (and not blank) is recorded under that id.
 */
module Grouping {
  import opened Results
  import opened Text
  import opened RubyHash
  import opened Matching

  const IdHeader: string := "UUID"
  const DefaultOutfileSuffix: string := "grouped"

  // ---------------------------------------------------------------------------
  // Ids. The source draws 20 random hex digits per group; here the n-th group
  // minted gets n written in hexadecimal, which makes freshness provable.

  function HexDigit(d: nat): char
    requires d < 16
  {
    if d < 10 then ('0' as int + d) as char else ('a' as int + d - 10) as char
  }

  function HexDigitValue(c: char): nat {
    if '0' <= c <= '9' then c as int - '0' as int
    else if 'a' <= c <= 'f' then c as int - 'a' as int + 10
    else 0
  }

  /** The id of the n-th group minted: n as a lower-case hexadecimal numeral. */
  function MintId(n: nat): (r: string)
    ensures r != [] && forall i :: 0 <= i < |r| ==> '0' <= r[i] <= '9' || 'a' <= r[i] <= 'f'
    decreases n
  {
    if n < 16 then [HexDigit(n)] else MintId(n / 16) + [HexDigit(n % 16)]
  }

  /** The number a hexadecimal numeral stands for. */
  function IdNumber(id: string): nat
    decreases |id|
  {
    if id == [] then 0 else IdNumber(id[..|id| - 1]) * 16 + HexDigitValue(id[|id| - 1])
  }

  /** Reading a minted id gives back its number, so ids minted apart differ. */
  lemma {:induction false} IdNumberOfMintId(n: nat)
    ensures IdNumber(MintId(n)) == n
    decreases n
  {
    var d := n % 16;
    assert HexDigitValue(HexDigit(d)) == d;
    if n < 16 {
      assert [HexDigit(n)][..0] == [];
    } else {
      var prefix := MintId(n / 16);
      assert (prefix + [HexDigit(d)])[..|prefix|] == prefix;
      IdNumberOfMintId(n / 16);
    }
  }

  lemma MintIdInjective(n: nat, n': nat)
    ensures MintId(n) == MintId(n') <==> n == n'
  {
    IdNumberOfMintId(n);
    IdNumberOfMintId(n');
  }

  // ---------------------------------------------------------------------------
  // The grouping state and track_values, as functions.

  /** The value store (normalized key to group id) and how many ids have been minted. */
  datatype GroupState = GroupState(store: map<string, string>, minted: nat)

  const Initial := GroupState(map[], 0)

  /** No blank key is stored, and every stored id was minted before. */
  ghost predicate Coherent(s: GroupState) {
    forall k :: k in s.store ==> !Blank(k) && IdNumber(s.store[k]) < s.minted
  }

  /** `normalized.find { |norm| value_in_store?(norm) }`, as an index. */
  function FirstStored(keys: seq<string>, store: map<string, string>): (r: Option<nat>)
    ensures r.Some? ==> r.value < |keys| && keys[r.value] in store
    ensures r.Some? ==> forall j :: 0 <= j < r.value ==> keys[j] !in store
    ensures r.None? ==> forall j :: 0 <= j < |keys| ==> keys[j] !in store
  {
    if keys == [] then None
    else if keys[0] in store then Some(0)
    else
      match FirstStored(keys[1..], store)
      case None => None
      case Some(i) => Some(i + 1)
  }

  /** The store after `normalized.each`: each key, in order, that is neither
      blank nor stored yet is stored under `id`. */
  function StoreKeys(store: map<string, string>, keys: seq<string>, id: string): map<string, string>
    decreases |keys|
  {
    if keys == [] then store
    else StoreKeys(if Blank(keys[0]) || keys[0] in store then store else store[keys[0] := id], keys[1..], id)
  }

  /** Storing keys never changes or removes an entry. */
  lemma {:induction false} StoreKeysKeepsEntries(store: map<string, string>, keys: seq<string>, id: string)
    ensures forall k :: k in store ==> k in StoreKeys(store, keys, id) && StoreKeys(store, keys, id)[k] == store[k]
    decreases |keys|
  {
    if keys != [] {
      var next := if Blank(keys[0]) || keys[0] in store then store else store[keys[0] := id];
      StoreKeysKeepsEntries(next, keys[1..], id);
    }
  }

  /** Every new entry is a non-blank key of the row, stored under `id`. */
  lemma {:induction false} StoreKeysAddsOnlyKeys(store: map<string, string>, keys: seq<string>, id: string)
    ensures forall k :: k in StoreKeys(store, keys, id) && k !in store ==>
      StoreKeys(store, keys, id)[k] == id && !Blank(k) && k in keys
    decreases |keys|
  {
    if keys != [] {
      var next := if Blank(keys[0]) || keys[0] in store then store else store[keys[0] := id];
      StoreKeysAddsOnlyKeys(next, keys[1..], id);
      StoreKeysKeepsEntries(next, keys[1..], id);
      assert forall k :: k in keys[1..] ==> k in keys;
    }
  }

  /** Every non-blank key of the row ends up stored. */
  lemma {:induction false} StoreKeysStoresAll(store: map<string, string>, keys: seq<string>, id: string)
    ensures forall i :: 0 <= i < |keys| && !Blank(keys[i]) ==> keys[i] in StoreKeys(store, keys, id)
    decreases |keys|
  {
    if keys != [] {
      var next := if Blank(keys[0]) || keys[0] in store then store else store[keys[0] := id];
      StoreKeysStoresAll(next, keys[1..], id);
      StoreKeysKeepsEntries(next, keys[1..], id);
      forall i | 1 <= i < |keys| && !Blank(keys[i]) ensures keys[i] in StoreKeys(store, keys, id) {
        assert keys[i] == keys[1..][i - 1];
      }
    }
  }

  /** track_values on the normalized keys of a row: the row's id and the new state. */
  function Track(s: GroupState, keys: seq<string>): (string, GroupState) {
    var first := FirstStored(keys, s.store);
    var id := if first.Some? then s.store[keys[first.value]] else MintId(s.minted);
    (id, GroupState(StoreKeys(s.store, keys, id), if first.Some? then s.minted else s.minted + 1))
  }

  /** The id is the one stored for the first key, in the row's order, that is
      already known; when no key is known it is a newly minted id that no
      entry holds. */
  lemma TrackFirstMatchWins(s: GroupState, keys: seq<string>)
    requires Coherent(s)
    ensures forall i :: 0 <= i < |keys| && keys[i] in s.store && (forall j :: 0 <= j < i ==> keys[j] !in s.store) ==>
      Track(s, keys).0 == s.store[keys[i]]
    ensures (forall j :: 0 <= j < |keys| ==> keys[j] !in s.store) ==>
      && Track(s, keys).0 == MintId(s.minted)
      && forall k :: k in s.store ==> s.store[k] != Track(s, keys).0
  {
    IdNumberOfMintId(s.minted);
  }

  /** The store only grows: every entry keeps its id. So two groups that
      existed before stay apart even when one row hits both. */
  lemma TrackKeepsEntries(s: GroupState, keys: seq<string>)
    ensures var s' := Track(s, keys).1;
      && s'.minted >= s.minted
      && forall k :: k in s.store ==> k in s'.store && s'.store[k] == s.store[k]
  {
    StoreKeysKeepsEntries(s.store, keys, Track(s, keys).0);
  }

  /** After the row every non-blank key of it is stored; the keys that were
      not stored before are now stored under the row's id; nothing else is added. */
  lemma TrackStoresRowKeys(s: GroupState, keys: seq<string>)
    ensures var (id, s') := Track(s, keys);
      && (forall i :: 0 <= i < |keys| && !Blank(keys[i]) ==> keys[i] in s'.store)
      && (forall k :: k in s'.store && k !in s.store ==> s'.store[k] == id && !Blank(k) && k in keys)
  {
    var id := Track(s, keys).0;
    StoreKeysStoresAll(s.store, keys, id);
    StoreKeysAddsOnlyKeys(s.store, keys, id);
  }

  /** Tracking a row keeps blank keys out and every stored id minted. */
  lemma TrackKeepsCoherent(s: GroupState, keys: seq<string>)
    requires Coherent(s)
    ensures Coherent(Track(s, keys).1)
  {
    var (id, s') := Track(s, keys);
    IdNumberOfMintId(s.minted);
    StoreKeysKeepsEntries(s.store, keys, id);
    StoreKeysAddsOnlyKeys(s.store, keys, id);
  }

  /** A row whose keys are all blank matches nothing: it gets a fresh id and
      leaves the store as it was. */
  lemma BlankRowGetsFreshId(s: GroupState, keys: seq<string>)
    requires Coherent(s)
    requires forall i :: 0 <= i < |keys| ==> Blank(keys[i])
    ensures var (id, s') := Track(s, keys);
      && s'.store == s.store && s'.minted == s.minted + 1
      && id == MintId(s.minted)
      && forall k :: k in s.store ==> s.store[k] != id
  {
    var id := Track(s, keys).0;
    forall j | 0 <= j < |keys| ensures keys[j] !in s.store {
      assert Blank(keys[j]);
    }
    TrackFirstMatchWins(s, keys);
    StoreKeysAddsOnlyKeys(s.store, keys, id);
    StoreKeysKeepsEntries(s.store, keys, id);
  }

  /** Two all-blank rows in a row never share an id. */
  lemma BlankRowsNeverGroup(s: GroupState, keys1: seq<string>, keys2: seq<string>)
    requires Coherent(s)
    requires forall i :: 0 <= i < |keys1| ==> Blank(keys1[i])
    requires forall i :: 0 <= i < |keys2| ==> Blank(keys2[i])
    ensures Track(s, keys1).0 != Track(Track(s, keys1).1, keys2).0
  {
    BlankRowGetsFreshId(s, keys1);
    TrackKeepsCoherent(s, keys1);
    BlankRowGetsFreshId(Track(s, keys1).1, keys2);
    MintIdInjective(s.minted, s.minted + 1);
  }

  // ---------------------------------------------------------------------------
  // From a CSV row to the values the matcher sees: `row.to_h.slice(*field_names)`.

  /** The `:downcase` header converter: the names a data row's columns are
      looked up by. The header row itself keeps the file's spelling. */
  function ConvertHeader(header: seq<string>): seq<string> {
    if header == [] then [] else [Downcase(header[0])] + ConvertHeader(header[1..])
  }

  /** Every header name is lower-cased in place; so a column is found by its
      name in any letter case. */
  lemma {:induction false} ConvertHeaderSpec(header: seq<string>)
    ensures |ConvertHeader(header)| == |header|
    ensures forall j :: 0 <= j < |header| ==> ConvertHeader(header)[j] == Downcase(header[j])
    decreases |header|
  {
    if header != [] {
      ConvertHeaderSpec(header[1..]);
    }
  }

  /** The column `row.to_h` takes a header's value from: the first one carrying it. */
  function ColumnOf(header: seq<string>, name: string): (r: Option<nat>)
    ensures r.Some? ==> r.value < |header| && header[r.value] == name
    ensures r.Some? ==> forall j :: 0 <= j < r.value ==> header[j] != name
    ensures r.None? <==> name !in header
  {
    if header == [] then None
    else if header[0] == name then Some(0)
    else
      match ColumnOf(header[1..], name)
      case None => None
      case Some(j) => Some(j + 1)
  }

  /** A row's field in column `j`; a missing cell is nil, which `to_s` makes "". */
  function Cell(fields: seq<string>, j: nat): string {
    if j < |fields| then fields[j] else ""
  }

  /** `row.fields`: a data row shorter than the header is padded with nil
      cells, written out empty. */
  function RowFields(header: seq<string>, fields: seq<string>): seq<string> {
    if |fields| < |header| then fields + seq(|header| - |fields|, _ => "") else fields
  }

  /** The fields written out are the row's own, followed by empty cells up
      to the header's width; each agrees with the cell the matcher reads. */
  lemma RowFieldsSpec(header: seq<string>, fields: seq<string>)
    ensures var r := RowFields(header, fields);
      && |r| == (if |fields| < |header| then |header| else |fields|)
      && r[..|fields|] == fields
      && (forall j :: |fields| <= j < |r| ==> r[j] == "")
      && (forall j :: 0 <= j < |r| ==> r[j] == Cell(fields, j))
  {
  }

  /** `row.to_h.slice(*names)`: in the order of `names`, each name that is a
      header with the row's value in that header's first column. */
  function RowValues(header: seq<string>, fields: seq<string>, names: seq<string>): seq<(string, string)>
    decreases |names|
  {
    if names == [] then []
    else
      match ColumnOf(header, names[0])
      case None => RowValues(header, fields, names[1..])
      case Some(j) => [(names[0], Cell(fields, j))] + RowValues(header, fields, names[1..])
  }

  /** The names that are headers, in their order: the keys `Hash#slice`
      keeps, since it skips every name the hash does not hold. */
  function Present(header: seq<string>, names: seq<string>): (r: seq<string>)
    ensures |r| <= |names|
    ensures forall x :: x in r <==> x in names && x in header
    decreases |names|
  {
    if names == [] then []
    else (if names[0] in header then [names[0]] else []) + Present(header, names[1..])
  }

  /** When every name is a header, none is skipped. */
  lemma {:induction false} PresentAll(header: seq<string>, names: seq<string>)
    requires forall i :: 0 <= i < |names| ==> names[i] in header
    ensures Present(header, names) == names
    decreases |names|
  {
    if names != [] {
      PresentAll(header, names[1..]);
    }
  }

  /** The values come one per field name that is a header, in field-name
      order, each from that header's first column; names missing from the
      header are skipped. */
  lemma {:induction false} RowValuesInFieldOrder(header: seq<string>, fields: seq<string>, names: seq<string>)
    ensures |RowValues(header, fields, names)| == |Present(header, names)|
    ensures forall i :: 0 <= i < |Present(header, names)| ==>
      RowValues(header, fields, names)[i] ==
        (Present(header, names)[i], Cell(fields, ColumnOf(header, Present(header, names)[i]).value))
    decreases |names|
  {
    if names != [] {
      RowValuesInFieldOrder(header, fields, names[1..]);
      var n := names[0];
      if n in header {
        assert Present(header, names) == [n] + Present(header, names[1..]);
        assert RowValues(header, fields, names) ==
          [(n, Cell(fields, ColumnOf(header, n).value))] + RowValues(header, fields, names[1..]);
      } else {
        assert Present(header, names) == Present(header, names[1..]);
        assert RowValues(header, fields, names) == RowValues(header, fields, names[1..]);
      }
    }
  }

  /** Only the columns named by the field names are read: two rows that agree
      on them give the same values, whatever the other columns hold. */
  lemma {:induction false} OnlyNamedColumnsMatter(header: seq<string>, fields1: seq<string>, fields2: seq<string>, names: seq<string>)
    requires forall i, j :: 0 <= i < |names| && ColumnOf(header, names[i]) == Some(j) ==> Cell(fields1, j) == Cell(fields2, j)
    ensures RowValues(header, fields1, names) == RowValues(header, fields2, names)
    decreases |names|
  {
    if names != [] {
      OnlyNamedColumnsMatter(header, fields1, fields2, names[1..]);
    }
  }

  // ---------------------------------------------------------------------------
  // All data rows in order.

  /** The ids of the data rows in order and the final state, or the error
      the first row whose fields cannot be normalized raises. */
  function Label(m: Matcher, header: seq<string>, s: GroupState, rows: seq<seq<string>>): Result<(seq<string>, GroupState), Error>
    decreases |rows|
  {
    if rows == [] then Success(([], s))
    else
      match Normalize(m, RowValues(header, rows[0], FieldNames(m)))
      case Failure(e) => Failure(e)
      case Success(keys) =>
        var (id, s') := Track(s, keys);
        Prepend([id], Label(m, header, s', rows[1..]))
  }

  function Prepend(ids: seq<string>, r: Result<(seq<string>, GroupState), Error>): Result<(seq<string>, GroupState), Error> {
    match r
    case Failure(e) => Failure(e)
    case Success((rest, s)) => Success((ids + rest, s))
  }

  lemma PrependTwice(ids: seq<string>, more: seq<string>, r: Result<(seq<string>, GroupState), Error>)
    ensures Prepend(ids, Prepend(more, r)) == Prepend(ids + more, r)
  {
    if r.Success? {
      assert ids + (more + r.value.0) == (ids + more) + r.value.0;
    }
  }

  lemma PrependNothing(r: Result<(seq<string>, GroupState), Error>)
    ensures Prepend([], r) == r
  {
    if r.Success? {
      assert [] + r.value.0 == r.value.0;
    }
  }

  /** One id per data row, and the state stays coherent. */
  lemma {:induction false} LabelShape(m: Matcher, header: seq<string>, s: GroupState, rows: seq<seq<string>>)
    requires Coherent(s)
    ensures Label(m, header, s, rows).Success? ==>
      |Label(m, header, s, rows).value.0| == |rows| && Coherent(Label(m, header, s, rows).value.1)
    decreases |rows|
  {
    if rows != [] {
      var n := Normalize(m, RowValues(header, rows[0], FieldNames(m)));
      if n.Success? {
        TrackKeepsCoherent(s, n.value);
        LabelShape(m, header, Track(s, n.value).1, rows[1..]);
      }
    }
  }

  /** A successful run gives one id per data row. */
  lemma {:induction false} LabelLength(m: Matcher, header: seq<string>, s: GroupState, rows: seq<seq<string>>)
    ensures Label(m, header, s, rows).Success? ==> |Label(m, header, s, rows).value.0| == |rows|
    decreases |rows|
  {
    if rows != [] {
      var n := Normalize(m, RowValues(header, rows[0], FieldNames(m)));
      if n.Success? {
        LabelLength(m, header, Track(s, n.value).1, rows[1..]);
      }
    }
  }

  /** Labelling the first `i` rows and then, from the state they leave, the
      rest, is labelling all the rows: the same ids, the same final state,
      and the same error from the first row that fails. */
  lemma {:induction false} LabelSplit(m: Matcher, header: seq<string>, s: GroupState, rows: seq<seq<string>>, i: nat)
    requires i <= |rows|
    ensures Label(m, header, s, rows[..i]).Failure? ==>
      Label(m, header, s, rows) == Failure(Label(m, header, s, rows[..i]).error)
    ensures Label(m, header, s, rows[..i]).Success? ==>
      var (ids, s') := Label(m, header, s, rows[..i]).value;
      Label(m, header, s, rows) == Prepend(ids, Label(m, header, s', rows[i..]))
    decreases i
  {
    if i == 0 {
      assert rows[..0] == [] && rows[0..] == rows;
      PrependNothing(Label(m, header, s, rows));
    } else {
      var n := Normalize(m, RowValues(header, rows[0], FieldNames(m)));
      assert rows[..i][0] == rows[0] && rows[..i][1..] == rows[1..][..i - 1];
      assert rows[1..][i - 1..] == rows[i..];
      if n.Success? {
        var (id, s1) := Track(s, n.value);
        LabelSplit(m, header, s1, rows[1..], i - 1);
        var prefix := Label(m, header, s1, rows[1..][..i - 1]);
        if prefix.Success? {
          PrependTwice([id], prefix.value.0, Label(m, header, prefix.value.1, rows[i..]));
        }
      }
    }
  }

  /** The id of the i-th data row is the one Track gives its keys in the
      state the rows before it leave. */
  lemma LabelIdAt(m: Matcher, header: seq<string>, s: GroupState, rows: seq<seq<string>>, i: nat)
    requires i < |rows| && Label(m, header, s, rows).Success?
    ensures Label(m, header, s, rows[..i]).Success?
    ensures Normalize(m, RowValues(header, rows[i], FieldNames(m))).Success?
    ensures |Label(m, header, s, rows).value.0| == |rows|
    ensures Label(m, header, s, rows).value.0[i] ==
      Track(Label(m, header, s, rows[..i]).value.1, Normalize(m, RowValues(header, rows[i], FieldNames(m))).value).0
  {
    LabelLength(m, header, s, rows);
    LabelSplit(m, header, s, rows, i);
    var (ids, s') := Label(m, header, s, rows[..i]).value;
    LabelLength(m, header, s, rows[..i]);
    LabelAt(m, header, s', rows, i);
  }

  /** Three single-column rows under an `email` matcher: the first two
      addresses normalize alike and share a group; the third normalizes
      differently and gets a group of its own. */
  lemma EmailRowsGroup(m: Matcher, e1: string, e2: string, e3: string)
    requires m.matchAs == Email && FieldNames(m) == ["email"]
    requires NormalizeEmail(e1) == NormalizeEmail(e2) && !Blank(NormalizeEmail(e1))
    requires NormalizeEmail(e3) != NormalizeEmail(e1)
    ensures Label(m, ["email"], Initial, [[e1], [e2], [e3]]).Success?
    ensures var ids := Label(m, ["email"], Initial, [[e1], [e2], [e3]]).value.0;
      |ids| == 3 && ids[0] == ids[1] && ids[1] != ids[2]
  {
    var k1, k3 := NormalizeEmail(e1), NormalizeEmail(e3);
    EmailRowKey(m, e1);
    EmailRowKey(m, e2);
    EmailRowKey(m, e3);
    LabelThreeRows(m, ["email"], Initial, [e1], [e2], [e3], [k1], [k1], [k3]);
    SameKeyThenOther(k1, k3);
  }

  /** A key seen twice shares its first id; a different key after it gets another. */
  lemma SameKeyThenOther(k1: string, k3: string)
    requires !Blank(k1) && k3 != k1
    ensures var (id1, s1) := Track(Initial, [k1]);
      var (id2, s2) := Track(s1, [k1]);
      id1 == id2 && id2 != Track(s2, [k3]).0
  {
    var s1 := GroupState(map[k1 := MintId(0)], 1);
    TrackOneKey(Initial, k1);
    TrackOneKey(s1, k1);
    TrackOneKey(s1, k3);
    MintIdInjective(0, 1);
  }

  /** Three rows whose keys are known are labelled by tracking them in turn. */
  lemma LabelThreeRows(m: Matcher, header: seq<string>, s: GroupState, r1: seq<string>, r2: seq<string>, r3: seq<string>,
                       keys1: seq<string>, keys2: seq<string>, keys3: seq<string>)
    requires Normalize(m, RowValues(header, r1, FieldNames(m))) == Success(keys1)
    requires Normalize(m, RowValues(header, r2, FieldNames(m))) == Success(keys2)
    requires Normalize(m, RowValues(header, r3, FieldNames(m))) == Success(keys3)
    ensures var (id1, s1) := Track(s, keys1);
      var (id2, s2) := Track(s1, keys2);
      var (id3, s3) := Track(s2, keys3);
      Label(m, header, s, [r1, r2, r3]) == Success(([id1, id2, id3], s3))
  {
    var (id1, s1) := Track(s, keys1);
    var (id2, s2) := Track(s1, keys2);
    var (id3, s3) := Track(s2, keys3);
    ThreeInARow(r1, r2, r3);
    ThreeInARow(id1, id2, id3);
    LabelStep(m, header, s2, r3, [], keys3);
    assert Label(m, header, s3, []) == Success(([], s3));
    LabelStep(m, header, s1, r2, [r3], keys2);
    LabelStep(m, header, s, r1, [r2, r3], keys1);
  }

  lemma ThreeInARow<T>(a: T, b: T, c: T)
    ensures [c] + [] == [c] && [b] + [c] == [b, c] && [a] + [b, c] == [a, b, c]
  {
  }

  /** A one-column row under an `email` matcher has one key: its normalized address. */
  lemma EmailRowKey(m: Matcher, e: string)
    requires m.matchAs == Email && FieldNames(m) == ["email"]
    ensures Normalize(m, RowValues(["email"], [e], FieldNames(m))) == Success([NormalizeEmail(e)])
  {
    assert ColumnOf(["email"], "email") == Some(0);
    assert ["email"][1..] == [];
    assert RowValues(["email"], [e], ["email"]) == [("email", e)];
    NormalizeSingleRule(m, [("email", e)]);
    var n := Normalize(m, [("email", e)]);
    assert |n.value| == 1 && n.value[0] == NormalizeEmail(e);
    assert n.value == [NormalizeEmail(e)];
  }

  /** Labelling a row: the row's id is the one Track gives for its keys. */
  lemma LabelStep(m: Matcher, header: seq<string>, s: GroupState, row: seq<string>, rest: seq<seq<string>>, keys: seq<string>)
    requires Normalize(m, RowValues(header, row, FieldNames(m))) == Success(keys)
    ensures Label(m, header, s, [row] + rest) == Prepend([Track(s, keys).0], Label(m, header, Track(s, keys).1, rest))
  {
    assert ([row] + rest)[0] == row && ([row] + rest)[1..] == rest;
  }

  /** Labelling the rows from the i-th on: the i-th row's keys decide its id
      and the state the later rows start from. */
  lemma LabelAt(m: Matcher, header: seq<string>, s: GroupState, rows: seq<seq<string>>, i: nat)
    requires i < |rows|
    ensures Normalize(m, RowValues(header, rows[i], FieldNames(m))).Failure? ==>
      Label(m, header, s, rows[i..]).Failure?
    ensures Normalize(m, RowValues(header, rows[i], FieldNames(m))).Success? ==>
      var keys := Normalize(m, RowValues(header, rows[i], FieldNames(m))).value;
      Label(m, header, s, rows[i..]) == Prepend([Track(s, keys).0], Label(m, header, Track(s, keys).1, rows[i + 1..]))
  {
    assert rows[i..][0] == rows[i] && rows[i..][1..] == rows[i + 1..];
  }

  /** A row with a single key joins that key's group, or starts a new one. */
  lemma TrackOneKey(s: GroupState, k: string)
    ensures k in s.store ==> Track(s, [k]) == (s.store[k], s)
    ensures k !in s.store && !Blank(k) ==> Track(s, [k]) == (MintId(s.minted), GroupState(s.store[k := MintId(s.minted)], s.minted + 1))
    ensures k !in s.store && Blank(k) ==> Track(s, [k]) == (MintId(s.minted), GroupState(s.store, s.minted + 1))
  {
    assert [k][1..] == [];
    assert FirstStored([k], s.store) == if k in s.store then Some(0) else None;
    var id := Track(s, [k]).0;
    var next := if Blank(k) || k in s.store then s.store else s.store[k := id];
    assert StoreKeys(s.store, [k], id) == StoreKeys(next, [], id) == next;
  }

  /** The same, on the addresses a@x.com, A@X.COM and b@x.com. */
  lemma ExampleEmailRows(m: Matcher)
    requires m.matchAs == Email && FieldNames(m) == ["email"]
    ensures Label(m, ["email"], Initial, [["a@x.com"], ["A@X.COM"], ["b@x.com"]]).Success?
    ensures var ids := Label(m, ["email"], Initial, [["a@x.com"], ["A@X.COM"], ["b@x.com"]]).value.0;
      |ids| == 3 && ids[0] == ids[1] && ids[1] != ids[2]
  {
    ExampleEmailKeys();
    EmailRowsGroup(m, "a@x.com", "A@X.COM", "b@x.com");
  }

  /** a@x.com and A@X.COM share the key a@x.com; b@x.com has another. */
  lemma ExampleEmailKeys()
    ensures NormalizeEmail("a@x.com") == NormalizeEmail("A@X.COM") == "a@x.com"
    ensures NormalizeEmail("b@x.com") != "a@x.com"
  {
    ExampleLowerKey();
    ExampleUpperKey();
    ExampleOtherKey();
  }

  lemma ExampleLowerKey()
    ensures NormalizeEmail("a@x.com") == "a@x.com"
  {
    ExampleKey("a@x.com", "a@x.com");
  }

  lemma ExampleUpperKey()
    ensures NormalizeEmail("A@X.COM") == "a@x.com"
  {
    ExampleKey("A@X.COM", "a@x.com");
  }

  lemma ExampleOtherKey()
    ensures NormalizeEmail("b@x.com") != "a@x.com"
  {
    ExampleKey("b@x.com", "b@x.com");
    assert "b@x.com"[0] != "a@x.com"[0];
  }

  /** The key of one of the example addresses, character by character. */
  lemma ExampleKey(e: string, key: string)
    requires e != [] && !IsStripChar(e[0]) && !IsStripChar(e[|e| - 1])
    requires |key| == |e| && forall i :: 0 <= i < |e| ==> key[i] == Lower(e[i])
    ensures NormalizeEmail(e) == key
  {
    UnpaddedEmail(e);
    DowncaseSpec(e);
  }

  /** An address with no surrounding whitespace is only lower-cased. */
  lemma UnpaddedEmail(e: string)
    requires e != [] && !IsStripChar(e[0]) && !IsStripChar(e[|e| - 1])
    ensures NormalizeEmail(e) == Downcase(e)
  {
    StripPadded([], e, []);
    assert [] + e + [] == e;
  }

  /** The output rows after the header: each data row so far behind its id. */
  ghost predicate Written(result: seq<seq<string>>, ids: seq<string>, rows: seq<seq<string>>) {
    && |result| == |ids| + 1 <= |rows|
    && forall j :: 1 <= j < |result| ==> result[j] == [ids[j - 1]] + RowFields(rows[0], rows[j])
  }

  /** Writing the next data row behind its id. */
  lemma WrittenNext(result: seq<seq<string>>, ids: seq<string>, rows: seq<seq<string>>, id: string)
    requires Written(result, ids, rows) && |result| < |rows|
    ensures Written(result + [[id] + RowFields(rows[0], rows[|result|])], ids + [id], rows)
  {
  }

  // ---------------------------------------------------------------------------
  // The engine object.

  class Engine {
    const fileName: string
    const matcher: Matcher
    const outfileSuffix: Option<string>
    /** @value_store */
    var store: map<string, string>
    /** How many ids the id source has handed out. */
    var minted: nat
    /** @rows_processed */
    var rowsProcessed: nat

    ghost predicate Valid()
      reads this
    {
      Coherent(State())
    }

    function State(): GroupState
      reads this
    {
      GroupState(store, minted)
    }

    constructor(fileName: string, matcher: Matcher, outfileSuffix: Option<string>)
      ensures this.fileName == fileName && this.matcher == matcher && this.outfileSuffix == outfileSuffix
      ensures State() == Initial && rowsProcessed == 0
      ensures Valid()
    {
      this.fileName := fileName;
      this.matcher := matcher;
      this.outfileSuffix := outfileSuffix;
      store := map[];
      minted := 0;
      rowsProcessed := 0;
    }

    /** Engine#outfile_suffix: the one given, even "", else "grouped". */
    function OutfileSuffix(): string {
      match outfileSuffix
      case None => DefaultOutfileSuffix
      case Some(suffix) => suffix
    }

    /** Engine#outfile_name. */
    function OutfileName(): string {
      fileName + "." + OutfileSuffix()
    }

    /** The output file sits beside the input: its name is the input's name,
        a dot, and the suffix given, or "grouped" when none was given. */
    lemma OutfileNameSpec()
      ensures outfileSuffix.None? ==> OutfileName() == fileName + ".grouped"
      ensures outfileSuffix.Some? ==> OutfileName() == fileName + "." + outfileSuffix.value
      ensures |OutfileName()| > |fileName| && OutfileName()[..|fileName|] == fileName && OutfileName()[|fileName|] == '.'
    {
    }

    /** Engine#count_row! */
    method CountRow()
      modifies this
      ensures rowsProcessed == old(rowsProcessed) + 1
      ensures store == old(store) && minted == old(minted)
    {
      rowsProcessed := rowsProcessed + 1;
    }

    /** Engine#new_id: the next id of the id source. */
    method NewId() returns (id: string)
      modifies this
      ensures id == MintId(old(minted)) && minted == old(minted) + 1
      ensures store == old(store) && rowsProcessed == old(rowsProcessed)
    {
      id := MintId(minted);
      minted := minted + 1;
    }

    /** Engine#value_in_store? */
    predicate ValueInStore(value: string)
      reads this
    {
      value in store
    }

    /** Engine#value_id: the id stored for `value`, or nil when it is not in the store. */
    function ValueId(value: string): (r: Option<string>)
      reads this
      ensures r.Some? <==> ValueInStore(value)
    {
      if value in store then Some(store[value]) else None
    }

    /** Engine#store_value */
    method StoreValue(value: string, id: string)
      modifies this
      ensures store == old(store)[value := id]
      ensures minted == old(minted) && rowsProcessed == old(rowsProcessed)
    {
      store := store[value := id];
    }

    /** `normalized.find { |norm| value_in_store?(norm) }`: the index of the
        first key already stored, or |keys| when there is none. */
    method FindStored(keys: seq<string>) returns (i: nat)
      ensures FirstStored(keys, store) == if i < |keys| then Some(i) else None
    {
      i := 0;
      while i < |keys| && !ValueInStore(keys[i])
        invariant i <= |keys|
        invariant forall j :: 0 <= j < i ==> keys[j] !in store
      {
        i := i + 1;
      }
    }

    /** `normalized.each`: store every key that is neither blank nor stored yet under `id`. */
    method StoreAll(keys: seq<string>, id: string)
      modifies this
      ensures store == StoreKeys(old(store), keys, id)
      ensures minted == old(minted) && rowsProcessed == old(rowsProcessed)
    {
      for j := 0 to |keys|
        invariant StoreKeys(store, keys[j..], id) == StoreKeys(old(store), keys, id)
        invariant minted == old(minted) && rowsProcessed == old(rowsProcessed)
      {
        assert keys[j..][1..] == keys[j + 1..];
        if !(Blank(keys[j]) || ValueInStore(keys[j])) {
          StoreValue(keys[j], id);
        }
      }
      assert keys[|keys|..] == [];
    }

    /** Engine#track_values: normalize the row's values (which may raise), find
        the first key already stored, take its id or mint one, then store
        every key that is neither blank nor stored yet. */
    method TrackValues(values: seq<(string, string)>) returns (r: Result<string, Error>)
      requires Valid()
      modifies this
      ensures Valid() && rowsProcessed == old(rowsProcessed)
      ensures Normalize(matcher, values).Failure? ==> r.Failure? && State() == old(State())
      ensures Normalize(matcher, values).Success? ==>
        r == Success(Track(old(State()), Normalize(matcher, values).value).0)
        && State() == Track(old(State()), Normalize(matcher, values).value).1
    {
      var normalized := Normalize(matcher, values);
      if normalized.Failure? {
        return Failure(normalized.error);
      }
      var keys := normalized.value;
      ghost var s0 := State();
      var i := FindStored(keys);
      var activeId: string;
      if i < |keys| {
        activeId := ValueId(keys[i]).value;
      } else {
        activeId := NewId();
      }
      StoreAll(keys, activeId);
      TrackKeepsCoherent(s0, keys);
      return Success(activeId);
    }

    /** One data row of Engine#run!: count it, take the fields the matcher
        names and track them. The id is the one labelling the rows from this
        one on gives it, and the state is the one the next row starts from. */
    method ProcessRow(header: seq<string>, rows: seq<seq<string>>, i: nat) returns (id: Result<string, Error>)
      requires Valid() && i < |rows|
      modifies this
      ensures Valid() && rowsProcessed == old(rowsProcessed) + 1
      ensures id.Failure? ==> Label(matcher, header, old(State()), rows[i..]).Failure?
      ensures id.Success? ==>
        Label(matcher, header, old(State()), rows[i..]) == Prepend([id.value], Label(matcher, header, State(), rows[i + 1..]))
    {
      CountRow();
      var values := RowValues(header, rows[i], FieldNames(matcher));
      LabelAt(matcher, header, State(), rows, i);
      id := TrackValues(values);
    }

    /** Engine#run!: the header row comes out behind "UUID" as the file spells
        it, every data row behind its id, padded to the header's width; the
        columns are looked up by the lower-cased header names, and the data
        rows are counted. */
    method Run(rows: seq<seq<string>>) returns (out: Result<seq<seq<string>>, Error>)
      requires Valid()
      modifies this
      ensures Valid()
      ensures rows == [] ==> out == Success([]) && State() == old(State()) && rowsProcessed == old(rowsProcessed)
      ensures rows != [] && Label(matcher, ConvertHeader(rows[0]), old(State()), rows[1..]).Failure? ==> out.Failure?
      ensures rows != [] && Label(matcher, ConvertHeader(rows[0]), old(State()), rows[1..]).Success? ==>
        var (ids, s) := Label(matcher, ConvertHeader(rows[0]), old(State()), rows[1..]).value;
        && |ids| == |rows| - 1
        && out.Success? && |out.value| == |rows|
        && out.value[0] == [IdHeader] + rows[0]
        && (forall i :: 1 <= i < |rows| ==> out.value[i] == [ids[i - 1]] + RowFields(rows[0], rows[i]))
        && State() == s && rowsProcessed == old(rowsProcessed) + |rows| - 1
    {
      if rows == [] {
        return Success([]);
      }
      var header := ConvertHeader(rows[0]);
      var result := [[IdHeader] + rows[0]];
      ghost var ids: seq<string> := [];
      ghost var s0 := State();
      PrependNothing(Label(matcher, header, s0, rows[1..]));
      LabelShape(matcher, header, s0, rows[1..]);
      for i := 1 to |rows|
        invariant Valid()
        invariant |result| == i && result[0] == [IdHeader] + rows[0]
        invariant Written(result, ids, rows)
        invariant rowsProcessed == old(rowsProcessed) + i - 1
        invariant Label(matcher, header, s0, rows[1..]) == Prepend(ids, Label(matcher, header, State(), rows[i..]))
      {
        var id := ProcessRow(header, rows, i);
        if id.Failure? {
          return Failure(id.error);
        }
        PrependTwice(ids, [id.value], Label(matcher, header, State(), rows[i + 1..]));
        WrittenNext(result, ids, rows, id.value);
        result := result + [[id.value] + RowFields(rows[0], rows[i])];
        ids := ids + [id.value];
      }
      assert rows[|rows|..] == [];
      return Success(result);
    }
  }
}
