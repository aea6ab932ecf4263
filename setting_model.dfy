/**
 * The Setting model of app/Models/Setting.php: one row of the settings
 * table, the attachment query it derives from its value, the cascade of
 * its deleting hook and the form field it describes.
 *
 * The field-type catalog is not part of this model: the names of the
 * file-type fields are a parameter (fileFields), and the field itself is
 * the record of what Field::make, title, value and help receive.
 */
module SettingModel {
  import opened Wrappers
  import opened Json

  /** A row of the settings table; its primary key is the key of the table map. */
  datatype Setting = Setting(
    typ: string,
    name: string,
    group: string,
    position: int,
    description: Option<string>,
    value: Option<string>,
    options: string,
    isArrayValue: bool)

  /** PHP's empty() on a nullable text column: null, "" and "0". */
  predicate IsBlank(v: Option<string>) {
    v.None? || v.value == "" || v.value == "0"
  }

  /** json_decode of a nullable column: null decodes to null. */
  function DecodeColumn(codec: Codec, v: Option<string>): Json {
    match v
    case None => JNull
    case Some(s) => codec.decode(s)
  }

  // ---------------------------------------------------------------------
  // positions

  /** The positions the table holds. */
  function Positions(m: map<string, Setting>): set<int> {
    set k | k in m :: m[k].position
  }

  /** Every non-empty finite set of positions has a greatest element. */
  lemma {:induction false} Greatest(s: set<int>) returns (x: int)
    ensures s != {} ==> x in s && forall y :: y in s ==> y <= x
    decreases |s|
  {
    if forall e :: e !in s {
      assert s == {};
      x := 0;
    } else {
      var first :| first in s;
      var z := Greatest(s - {first});
      x := if s - {first} == {} || z < first then first else z;
      forall y | y in s ensures y <= x {
        if y != first { assert y in s - {first}; }
      }
    }
  }

  function Max(s: set<int>): (r: int)
    requires s != {}
    ensures r in s && forall y :: y in s ==> y <= r
  {
    assert exists x :: x in s && forall y :: y in s ==> y <= x by {
      var w := Greatest(s);
    }
    var x :| x in s && forall y :: y in s ==> y <= x;
    x
  }

  function Min(s: set<int>): (r: int)
    requires s != {}
    ensures r in s && forall y :: y in s ==> r <= y
  {
    var negated := set x | x in s :: -x;
    assert negated != {} by {
      var first := Greatest(s);
      assert -first in negated;
    }
    var top := Max(negated);
    assert forall y :: y in s ==> -y in negated;
    -top
  }

  // ---------------------------------------------------------------------
  // attachment()

  /** What attachment() returns: a whereIn query on the ids, or an empty collection. */
  datatype AttachmentQuery = WhereIdIn(ids: seq<Json>) | NoAttachments

  /**
   * attachment(): for a file-type setting with a non-empty value, the
   * decoded value is the id list when it is a list and a one-element list
   * otherwise.
   */
  function Attachment(s: Setting, fileFields: set<string>, codec: Codec): AttachmentQuery {
    if s.typ in fileFields && !IsBlank(s.value) then
      var decoded := codec.decode(s.value.value);
      WhereIdIn(if decoded.JList? then decoded.items else [decoded])
    else NoAttachments
  }

  /** An id value in whereIn('id', ...) selects the attachment with that integer id. */
  predicate Selects(j: Json, id: int) {
    j == JNum(id) || j == JStr(IntToString(id))
  }

  /** ->get() on the query, corrected: the empty collection yields no attachments. */
  function AttachmentsOf(q: AttachmentQuery, store: set<int>): (r: set<int>)
    ensures r <= store
    ensures q.NoAttachments? ==> r == {}
    ensures q.WhereIdIn? ==> forall id :: id in r <==>
      id in store && exists k :: 0 <= k < |q.ids| && Selects(q.ids[k], id)
  {
    match q
    case NoAttachments => {}
    case WhereIdIn(ids) => set id | id in store && exists k :: 0 <= k < |ids| && Selects(ids[k], id)
  }

  /**
   * ->get() on the query as written: collect([])->get() calls
   * Collection::get without its key argument, which raises.
   */
  function GetAttachmentsAsWritten(q: AttachmentQuery, store: set<int>): (r: Option<set<int>>)
    ensures r.None? <==> q.NoAttachments?
    ensures r.Some? ==> r.value == AttachmentsOf(q, store)
  {
    match q
    case NoAttachments => None
    case WhereIdIn(_) => Some(AttachmentsOf(q, store))
  }

  /** attachment() is the empty collection exactly for non-file types and PHP-empty values. */
  lemma AttachmentEmptyIff(s: Setting, fileFields: set<string>, codec: Codec)
    ensures Attachment(s, fileFields, codec).NoAttachments? <==>
      s.typ !in fileFields || s.value.None? || s.value.value == "" || s.value.value == "0"
  {
  }

  /** A file setting storing an encoded id list queries exactly those ids. */
  lemma AttachmentOfEncodedList(s: Setting, fileFields: set<string>, codec: Codec, ids: seq<Json>)
    requires Lawful(codec) && s.typ in fileFields
    requires s.value == Some(codec.encode(JList(ids))) && !IsBlank(s.value)
    ensures Attachment(s, fileFields, codec) == WhereIdIn(ids)
  {
    assert codec.decode(codec.encode(JList(ids))) == JList(ids);
  }

  /** A file setting storing one encoded scalar id queries that id alone. */
  lemma AttachmentOfEncodedScalar(s: Setting, fileFields: set<string>, codec: Codec, id: Json)
    requires Lawful(codec) && s.typ in fileFields && !id.JList?
    requires s.value == Some(codec.encode(id)) && !IsBlank(s.value)
    ensures Attachment(s, fileFields, codec) == WhereIdIn([id])
  {
    assert codec.decode(codec.encode(id)) == id;
  }

  /** Numeric ids select the stored attachments with those ids and no others. */
  lemma AttachmentsOfNumbers(ns: seq<int>, store: set<int>)
    ensures AttachmentsOf(WhereIdIn(seq(|ns|, k requires 0 <= k < |ns| => JNum(ns[k]))), store) ==
      store * (set k | 0 <= k < |ns| :: ns[k])
  {
    var ids := seq(|ns|, k requires 0 <= k < |ns| => JNum(ns[k]));
    var r := AttachmentsOf(WhereIdIn(ids), store);
    forall id | id in store && id in (set k | 0 <= k < |ns| :: ns[k]) ensures id in r {
      var k :| 0 <= k < |ns| && ns[k] == id;
      assert Selects(ids[k], id);
    }
    forall id | id in r ensures id in (set k | 0 <= k < |ns| :: ns[k]) {
      var k :| 0 <= k < |ids| && Selects(ids[k], id);
      assert ns[k] == id;
    }
  }

  // ---------------------------------------------------------------------
  // The deleting hook

  /** The attachment store after the deleting hook, corrected: every fetched attachment is removed. */
  function AfterDeletingHook(store: set<int>, s: Setting, fileFields: set<string>, codec: Codec): (r: set<int>)
    ensures r <= store
    ensures s.typ !in fileFields || IsBlank(s.value) ==> r == store
  {
    store - AttachmentsOf(Attachment(s, fileFields, codec), store)
  }

  /** The deleting hook as written: None when ->get() raises, which also cancels the delete. */
  function AfterDeletingHookAsWritten(store: set<int>, s: Setting, fileFields: set<string>, codec: Codec): (r: Option<set<int>>)
    ensures r.Some? ==> r.value == AfterDeletingHook(store, s, fileFields, codec)
  {
    match GetAttachmentsAsWritten(Attachment(s, fileFields, codec), store)
    case None => None
    case Some(found) => Some(store - found)
  }

  /**
   * The hook as written raises for every setting without attachments to
   * fetch (a non-file type or a PHP-empty value), although the corrected
   * hook has nothing to delete there.
   */
  lemma DeletingHookRaisesWithoutAttachments(store: set<int>, s: Setting, fileFields: set<string>, codec: Codec)
    ensures AfterDeletingHookAsWritten(store, s, fileFields, codec).None? <==>
      s.typ !in fileFields || IsBlank(s.value)
    ensures s.typ !in fileFields || IsBlank(s.value) ==> AfterDeletingHook(store, s, fileFields, codec) == store
  {
  }

  // ---------------------------------------------------------------------
  // field(): option resolution

  /** collect(json_decode(options)): a list's items, an object's property values, nothing for null, else the value itself. */
  function OptionRows(j: Json): (rows: seq<Json>)
    ensures j.JNull? ==> rows == []
    ensures !IsArray(j) && !j.JNull? ==> rows == [j]
  {
    match j
    case JNull => []
    case JList(items) => items
    case JObject(fields) => seq(|fields|, i requires 0 <= i < |fields| => fields[i].1)
    case _ => [j]
  }

  /**
   * where('active', '=', true): an object whose active property is loosely
   * equal to true. Collection::where compares an object with a non-object
   * as unequal whatever its contents, so an object-valued active property
   * never matches '='.
   */
  predicate Active(row: Json) {
    row.JObject? &&
    var active := Get(row.fields, "active").GetOr(JNull);
    !active.JObject? && Truthy(active)
  }

  /**
   * A value used as a PHP array key: strings stay, integers are written
   * out, booleans become 1 and 0, null the empty key; an array or an
   * object is an illegal offset and raises.
   */
  function ArrayKey(j: Json): Option<string> {
    match j
    case JStr(s) => Some(s)
    case JNum(n) => Some(IntToString(n))
    case JBool(b) => Some(if b then "1" else "0")
    case JNull => Some("")
    case _ => None
  }

  /** The pair [$option->name => $option->param]; None when a property is missing or the name is not a key. */
  function Entry(row: Json): Option<(string, Json)>
    requires row.JObject?
  {
    var name := Get(row.fields, "name");
    var param := Get(row.fields, "param");
    if name.None? || param.None? then None
    else match ArrayKey(name.value)
      case None => None
      case Some(k) => Some((k, param.value))
  }

  /** The option map: active rows folded left to right, so a later name overwrites an earlier one. */
  function ResolveOptions(rows: seq<Json>): Option<map<string, Json>>
    decreases |rows|
  {
    if rows == [] then Some(map[])
    else
      var before := ResolveOptions(rows[..|rows| - 1]);
      var row := rows[|rows| - 1];
      if before.None? || !Active(row) then before
      else match Entry(row)
        case None => None
        case Some(e) => Some(before.value[e.0 := e.1])
  }

  /** A row whose active property is an object, even a non-empty one, adds nothing to the option map. */
  lemma ObjectFlagSkipped(rows: seq<Json>, row: Json, flag: seq<(string, Json)>)
    requires row.JObject? && Get(row.fields, "active") == Some(JObject(flag))
    ensures ResolveOptions(rows + [row]) == ResolveOptions(rows)
  {
    assert (rows + [row])[..|rows|] == rows;
  }

  /** Every active row has a name usable as a key and a param. */
  predicate EntriesReadable(rows: seq<Json>) {
    forall i :: 0 <= i < |rows| && Active(rows[i]) ==> Entry(rows[i]).Some?
  }

  /** The options resolve exactly when every active row can be read. */
  lemma {:induction false} ResolveOptionsDefined(rows: seq<Json>)
    ensures ResolveOptions(rows).Some? <==> EntriesReadable(rows)
    decreases |rows|
  {
    if rows != [] {
      var n := |rows| - 1;
      var init := rows[..n];
      ResolveOptionsDefined(init);
      assert forall i :: 0 <= i < n ==> init[i] == rows[i];
      if EntriesReadable(init) && (Active(rows[n]) ==> Entry(rows[n]).Some?) {
        assert EntriesReadable(rows);
      }
    }
  }

  /** The row is active and names the key k. */
  predicate Names(row: Json, k: string) {
    Active(row) && Entry(row).Some? && Entry(row).value.0 == k
  }

  /** Row i names k and no later row does. */
  predicate LastNaming(rows: seq<Json>, i: int, k: string) {
    0 <= i < |rows| && Names(rows[i], k) && forall j :: i < j < |rows| ==> !Names(rows[j], k)
  }

  /** A name is in the option map exactly when some active row carries it: inactive rows contribute nothing. */
  lemma {:induction false} ResolveOptionsKeys(rows: seq<Json>, k: string)
    requires ResolveOptions(rows).Some?
    ensures k in ResolveOptions(rows).value <==> exists i :: 0 <= i < |rows| && Names(rows[i], k)
    decreases |rows|
  {
    if rows != [] {
      var n := |rows| - 1;
      var init := rows[..n];
      ResolveOptionsKeys(init, k);
      if exists i :: 0 <= i < n && Names(init[i], k) {
        var i :| 0 <= i < n && Names(init[i], k);
        assert Names(rows[i], k);
      }
      if exists i :: 0 <= i < |rows| && Names(rows[i], k) {
        var i :| 0 <= i < |rows| && Names(rows[i], k);
        if i < n {
          assert Names(init[i], k);
        }
      }
    }
  }

  /** The param stored under a name is the one of the last active row carrying that name: later rows win. */
  lemma {:induction false} ResolveOptionsLastWins(rows: seq<Json>, k: string)
    requires ResolveOptions(rows).Some? && k in ResolveOptions(rows).value
    ensures exists i :: LastNaming(rows, i, k) && Entry(rows[i]).value.1 == ResolveOptions(rows).value[k]
    decreases |rows|
  {
    var n := |rows| - 1;
    var init := rows[..n];
    var m := ResolveOptions(rows).value;
    if Names(rows[n], k) {
      assert LastNaming(rows, n, k);
    } else {
      assert ResolveOptions(init).Some? && k in ResolveOptions(init).value;
      ResolveOptionsLastWins(init, k);
      var i :| LastNaming(init, i, k) && Entry(init[i]).value.1 == ResolveOptions(init).value[k];
      assert init[i] == rows[i];
      forall j | i < j < |rows| ensures !Names(rows[j], k) {
        if j < n {
          assert init[j] == rows[j];
        }
      }
      assert LastNaming(rows, i, k);
    }
  }

  // ---------------------------------------------------------------------
  // field(): the field description

  /** The value handed to the field: decoded when the array flag is set, the raw column otherwise. */
  datatype FieldValue = DecodedValue(j: Json) | RawValue(v: Option<string>)

  /** What Field::make, title, value and help receive. */
  datatype FieldSpec = FieldSpec(
    typ: string,
    path: string,
    params: map<string, Json>,
    title: string,
    value: FieldValue,
    help: Option<string>)

  /** field(): None when resolving the options raises. */
  function Field(key: string, s: Setting, codec: Codec): (r: Option<FieldSpec>)
    ensures r.Some? <==> ResolveOptions(OptionRows(codec.decode(s.options))).Some?
  {
    match ResolveOptions(OptionRows(codec.decode(s.options)))
    case None => None
    case Some(params) =>
      var value := if s.isArrayValue then DecodedValue(DecodeColumn(codec, s.value)) else RawValue(s.value);
      Some(FieldSpec(s.typ, key + ".new_value", params, s.name, value, s.description))
  }

  /**
   * With a lawful codec, the field of a setting whose options were stored
   * encoded shows that option map's entries, and an array value stored
   * encoded comes back decoded.
   */
  lemma FieldOfEncoded(key: string, s: Setting, codec: Codec, opts: Json, j: Json)
    requires Lawful(codec)
    requires s.options == codec.encode(opts) && ResolveOptions(OptionRows(opts)).Some?
    requires s.isArrayValue && s.value == Some(codec.encode(j))
    ensures Field(key, s, codec) ==
      Some(FieldSpec(s.typ, key + ".new_value", ResolveOptions(OptionRows(opts)).value, s.name, DecodedValue(j), s.description))
  {
    assert codec.decode(codec.encode(opts)) == opts;
    assert codec.decode(codec.encode(j)) == j;
  }

  /** A stored empty option list gives a field without parameters; a plain value is passed through raw. */
  lemma FieldWithoutOptions(key: string, s: Setting, codec: Codec)
    requires Lawful(codec) && s.options == codec.encode(JList([])) && !s.isArrayValue
    ensures Field(key, s, codec) ==
      Some(FieldSpec(s.typ, key + ".new_value", map[], s.name, RawValue(s.value), s.description))
  {
    assert codec.decode(codec.encode(JList([]))) == JList([]);
  }
}
