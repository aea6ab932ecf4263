/**
 * The setting(key, default) accessor of app/Support/helpers.php: how a
 * stored setting is read back by the rest of the application.
 */
module SettingAccessor {
  import opened Wrappers
  import opened Json
  import opened SettingModel

  /** What setting() returns. */
  datatype SettingRead =
    | Default(j: Json)        // the key is not in the table: the caller's default
    | Files(ids: set<int>)    // a file-type setting: its attachments
    | Decoded(j: Json)        // an array setting: the decoded value
    | Raw(v: Option<string>)  // any other setting: the stored text

  /**
   * setting(), corrected: a file-type setting with nothing attached reads
   * as no attachments. The rescue around json_decode never takes its
   * fallback, because json_decode does not raise: malformed text decodes
   * to whatever the decoder yields.
   */
  function Read(table: map<string, Setting>, store: set<int>, fileFields: set<string>, codec: Codec,
                key: string, default: Json): (r: SettingRead)
    ensures r.Default? <==> key !in table
    ensures r.Default? ==> r.j == default
    ensures key in table && table[key].typ in fileFields ==> r.Files? && r.ids <= store
  {
    if key !in table then Default(default)
    else
      var s := table[key];
      if s.typ in fileFields then Files(AttachmentsOf(Attachment(s, fileFields, codec), store))
      else if s.isArrayValue then Decoded(DecodeColumn(codec, s.value))
      else Raw(s.value)
  }

  /** setting() as written: ->get() on the empty collection raises for a file setting with an empty value. */
  function ReadAsWritten(table: map<string, Setting>, store: set<int>, fileFields: set<string>, codec: Codec,
                         key: string, default: Json): Option<SettingRead>
  {
    if key !in table then Some(Default(default))
    else
      var s := table[key];
      if s.typ in fileFields then
        match GetAttachmentsAsWritten(Attachment(s, fileFields, codec), store)
        case None => None
        case Some(found) => Some(Files(found))
      else if s.isArrayValue then Some(Decoded(DecodeColumn(codec, s.value)))
      else Some(Raw(s.value))
  }

  /**
   * The written accessor agrees with the corrected one except on file
   * settings with a PHP-empty value, where it raises and the corrected
   * one reads no attachments.
   */
  lemma ReadAsWrittenRaisesOnEmptyFiles(table: map<string, Setting>, store: set<int>, fileFields: set<string>,
                                        codec: Codec, key: string, default: Json)
    ensures var blankFile := key in table && table[key].typ in fileFields && IsBlank(table[key].value);
      (blankFile ==> ReadAsWritten(table, store, fileFields, codec, key, default).None? &&
                     Read(table, store, fileFields, codec, key, default) == Files({})) &&
      (!blankFile ==> ReadAsWritten(table, store, fileFields, codec, key, default) ==
                      Some(Read(table, store, fileFields, codec, key, default)))
  {
  }

  /** An array setting stored encoded reads back as the value itself. */
  lemma ReadEncodedArray(table: map<string, Setting>, store: set<int>, fileFields: set<string>,
                         codec: Codec, key: string, default: Json, j: Json)
    requires Lawful(codec) && key in table && table[key].typ !in fileFields
    requires table[key].isArrayValue && table[key].value == Some(codec.encode(j))
    ensures Read(table, store, fileFields, codec, key, default) == Decoded(j)
  {
    assert codec.decode(codec.encode(j)) == j;
  }

  /** A plain setting reads back its stored text unchanged, null included. */
  lemma ReadPlain(table: map<string, Setting>, store: set<int>, fileFields: set<string>,
                  codec: Codec, key: string, default: Json)
    requires key in table && table[key].typ !in fileFields && !table[key].isArrayValue
    ensures Read(table, store, fileFields, codec, key, default) == Raw(table[key].value)
  {
  }
  /**
   * A file setting whose column holds a list of numeric attachment ids,
   * encoded, reads as exactly the stored attachments with those ids; an
   * encoding the model's PHP-empty test treats as blank reads as none.
   */
  lemma ReadFileIds(table: map<string, Setting>, store: set<int>, fileFields: set<string>,
                    codec: Codec, key: string, default: Json, ns: seq<int>)
    requires Lawful(codec) && key in table && table[key].typ in fileFields
    requires table[key].value == Some(codec.encode(JList(seq(|ns|, k requires 0 <= k < |ns| => JNum(ns[k])))))
    ensures Read(table, store, fileFields, codec, key, default) ==
      Files(if IsBlank(table[key].value) then {} else store * (set k | 0 <= k < |ns| :: ns[k]))
  {
    if !IsBlank(table[key].value) {
      AttachmentOfEncodedList(table[key], fileFields, codec, seq(|ns|, k requires 0 <= k < |ns| => JNum(ns[k])));
      AttachmentsOfNumbers(ns, store);
    }
  }

  /** A file setting holding one encoded numeric id reads as that attachment, when it is stored. */
  lemma ReadFileId(table: map<string, Setting>, store: set<int>, fileFields: set<string>,
                   codec: Codec, key: string, default: Json, n: int)
    requires Lawful(codec) && key in table && table[key].typ in fileFields
    requires table[key].value == Some(codec.encode(JNum(n)))
    ensures Read(table, store, fileFields, codec, key, default) ==
      Files(if IsBlank(table[key].value) then {} else store * {n})
  {
    if !IsBlank(table[key].value) {
      AttachmentOfEncodedScalar(table[key], fileFields, codec, JNum(n));
      AttachmentsOfNumbers([n], store);
      assert seq(1, k requires 0 <= k < 1 => JNum([n][k])) == [JNum(n)];
      assert [n][0] == n;
      assert (set k | 0 <= k < 1 :: [n][k]) == {n};
    }
  }
}
