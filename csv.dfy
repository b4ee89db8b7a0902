/**
  The part of Python's `csv` module the scripts rely on, at the level of
  already-split rows: `csv.DictReader` with explicit field names turns a
  row into a dict, and `csv.DictWriter` turns a dict back into a row in
  its field-name order. Quoting, escaping and line splitting are not
  modelled: a row is a `seq<string>` of fields.
 */
module Csv {

  datatype Option<T> = None | Some(value: T)

  /**
    A Python `dict` from column name to raw field text. The column names
    are a type parameter so that each script can name its fixed columns by
    an enumeration.
   */
  type Dict<K> = map<K, string>

  /** The value `DictWriter` writes for a field name the dict lacks. */
  const RestVal: string := ""

  function Names<K>(fieldnames: seq<K>): set<K> {
    set name | name in fieldnames
  }

  predicate Distinct<K(==)>(fieldnames: seq<K>) {
    forall i, j :: 0 <= i < j < |fieldnames| ==> fieldnames[i] != fieldnames[j]
  }

  /**
    One row as `DictReader` yields it when the row has as many fields as
    there are field names: `dict(zip(fieldnames, row))`, so a later
    duplicate name overwrites an earlier one.
   */
  function FromRow<K>(fieldnames: seq<K>, row: seq<string>): (d: Dict<K>)
    requires |row| == |fieldnames|
    ensures d.Keys == Names(fieldnames)
    ensures Distinct(fieldnames) ==>
              forall i :: 0 <= i < |fieldnames| ==> d[fieldnames[i]] == row[i]
    decreases |fieldnames|
  {
    if fieldnames == [] then map[]
    else
      var n := |fieldnames| - 1;
      assert Names(fieldnames) == Names(fieldnames[..n]) + {fieldnames[n]} by {
        assert fieldnames == fieldnames[..n] + [fieldnames[n]];
      }
      FromRow(fieldnames[..n], row[..n])[fieldnames[n] := row[n]]
  }

  /** `list(DictReader(...))` over rows of the expected width. */
  function ReadDicts<K>(fieldnames: seq<K>, rows: seq<seq<string>>): (ds: seq<Dict<K>>)
    requires forall row :: row in rows ==> |row| == |fieldnames|
  {
    seq(|rows|, k requires 0 <= k < |rows| => FromRow(fieldnames, rows[k]))
  }

  /**
    `DictWriter.writerow` with the default `extrasaction='raise'`: a dict
    holding a key that is not a field name raises `ValueError` (`None`
    here); otherwise the row lists the dict's values in field-name order,
    with `RestVal` for a missing name.
   */
  function WriteRow<K>(fieldnames: seq<K>, d: Dict<K>): Option<seq<string>> {
    if d.Keys <= Names(fieldnames) then
      Some(seq(|fieldnames|, i requires 0 <= i < |fieldnames| =>
             if fieldnames[i] in d then d[fieldnames[i]] else RestVal))
    else None
  }

  /**
    `DictWriter.writerows`: the rows of all dicts in order, or failure as
    soon as one dict cannot be written.
   */
  function WriteRows<K>(fieldnames: seq<K>, ds: seq<Dict<K>>): (r: Option<seq<seq<string>>>)
    ensures r.Some? <==> forall k :: 0 <= k < |ds| ==> WriteRow(fieldnames, ds[k]).Some?
    ensures r.Some? ==>
              |r.value| == |ds| &&
              forall k :: 0 <= k < |ds| ==> WriteRow(fieldnames, ds[k]) == Some(r.value[k])
  {
    if ds == [] then Some([])
    else match (WriteRow(fieldnames, ds[0]), WriteRows(fieldnames, ds[1..]))
      case (Some(line), Some(lines)) => Some([line] + lines)
      case _ => None
  }

  /**
    `writeheader()` followed by `writerows(ds)`: the header row is the
    field names, spelt by `title`.
   */
  function Write<K>(fieldnames: seq<K>, title: K -> string, ds: seq<Dict<K>>): Option<seq<seq<string>>> {
    match WriteRows(fieldnames, ds)
    case Some(lines) => Some([seq(|fieldnames|, i requires 0 <= i < |fieldnames| => title(fieldnames[i]))] + lines)
    case None => None
  }

  /**
    Writing a dict that was read with the same distinct field names gives
    back the row that was read: reading and writing lose nothing.
   */
  lemma WriteReadRoundTrip<K>(fieldnames: seq<K>, row: seq<string>)
    requires Distinct(fieldnames) && |row| == |fieldnames|
    ensures WriteRow(fieldnames, FromRow(fieldnames, row)) == Some(row)
  {
    var d := FromRow(fieldnames, row);
    var line := WriteRow(fieldnames, d).value;
    assert line == row by {
      forall i | 0 <= i < |row|
        ensures line[i] == row[i]
      {
      }
    }
  }
}
