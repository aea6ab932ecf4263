/**
 * What the settings screen's actions promise: when each one writes, what
 * it writes and what it leaves alone, how an action is undone, and how the
 * layout's move buttons agree with the moves themselves.
 */
module SettingScreenLaws {
  import opened Wrappers
  import opened Json
  import opened SettingModel
  import opened SettingAccessor
  import opened SettingScreen

  // ---------------------------------------------------------------------
  // store

  /** store() writes exactly when the form is valid and the key is new; otherwise nothing changes. */
  lemma StoredOutcome(t: Tables, form: SettingForm, codec: Codec)
    ensures var r := Stored(t, form, codec);
      (r.outcome == Invalid <==> !StoreValid(form)) &&
      (r.outcome == Ok <==> StoreValid(form) && form.key.value !in t.settings) &&
      (r.outcome != Ok ==> r.tables == t)
  {
  }

  /** The row a valid store() of a new key inserts. */
  lemma StoredInserts(t: Tables, form: SettingForm, codec: Codec)
    requires StoreValid(form) && form.key.value !in t.settings
    ensures Stored(t, form, codec) ==
      Response(Ok, t.(settings := t.settings[form.key.value := Created(form, NextPosition(t.settings), codec)]))
  {
  }

  /**
   * A successful store() adds one row under the new key, after every other
   * position (at 1 in an empty table), and leaves every other row and the
   * attachments alone.
   */
  lemma StoredAppends(t: Tables, form: SettingForm, codec: Codec)
    requires StoreValid(form) && form.key.value !in t.settings
    ensures var r, key := Stored(t, form, codec).tables, form.key.value;
      r.attachments == t.attachments &&
      r.settings.Keys == t.settings.Keys + {key} &&
      (forall k :: k in t.settings ==> r.settings[k] == t.settings[k]) &&
      (forall k :: k in t.settings ==> t.settings[k].position < r.settings[key].position) &&
      (t.settings == map[] ==> r.settings[key].position == 1) &&
      r.settings[key].typ == form.typ.value && r.settings[key].name == form.name.value &&
      r.settings[key].group == form.group.value
  {
    var v := Created(form, NextPosition(t.settings), codec);
    StoredInserts(t, form, codec);
    InsertKeepsOthers(t.settings, form.key.value, v);
  }

  /** Inserting under a new key changes only that key. */
  lemma InsertKeepsOthers(m: map<string, Setting>, key: string, v: Setting)
    requires key !in m
    ensures m[key := v].Keys == m.Keys + {key} && m[key := v][key] == v
    ensures forall k :: k in m ==> m[key := v][k] == m[k]
  {
  }

  /** Inserting a row after every position keeps positions distinct. */
  lemma InsertKeepsDistinct(m: map<string, Setting>, key: string, v: Setting)
    requires DistinctPositions(m) && key !in m
    requires forall k :: k in m ==> m[k].position < v.position
    ensures DistinctPositions(m[key := v])
  {
    var r := m[key := v];
    forall a, b | a in r && b in r && a != b ensures r[a].position != r[b].position {
      if a != key && b != key {
        assert r[a] == m[a] && r[b] == m[b];
      }
    }
  }

  /** Without options in the request, or with null options, store() saves an empty list. */
  lemma StoredOptionsDefault(t: Tables, form: SettingForm, codec: Codec)
    requires StoreValid(form) && form.key.value !in t.settings
    requires form.options.Unsent? || form.options == Sent(JNull)
    ensures Stored(t, form, codec).tables.settings[form.key.value].options == codec.encode(JList([]))
  {
    StoredInserts(t, form, codec);
  }

  /** store() never gives two settings the same position. */
  lemma StoredKeepsDistinct(t: Tables, form: SettingForm, codec: Codec)
    requires DistinctPositions(t.settings)
    ensures DistinctPositions(Stored(t, form, codec).tables.settings)
  {
    if StoreValid(form) && form.key.value !in t.settings {
      var v := Created(form, NextPosition(t.settings), codec);
      StoredInserts(t, form, codec);
      InsertKeepsDistinct(t.settings, form.key.value, v);
    }
  }

  /** Deleting a non-file setting just stored restores the tables. */
  lemma StoreThenDelete(t: Tables, form: SettingForm, codec: Codec, fileFields: set<string>)
    requires StoreValid(form) && form.key.value !in t.settings && form.typ.value !in fileFields
    ensures Deleted(Stored(t, form, codec).tables, form.key.value, fileFields, codec) == Response(Ok, t)
  {
    var key := form.key.value;
    var v := Created(form, NextPosition(t.settings), codec);
    StoredInserts(t, form, codec);
    InsertThenRemove(t.settings, key, v);
  }

  lemma InsertThenRemove(m: map<string, Setting>, key: string, v: Setting)
    requires key !in m
    ensures m[key := v] - {key} == m
  {
    assert (m[key := v] - {key}).Keys == m.Keys;
  }

  /** As written, the same delete raises in the deleting hook, so a setting just stored cannot be deleted. */
  lemma StoreThenDeleteAsWritten(t: Tables, form: SettingForm, codec: Codec, fileFields: set<string>)
    requires StoreValid(form) && form.key.value !in t.settings && form.typ.value !in fileFields
    ensures var r := Stored(t, form, codec).tables;
      DeletedAsWritten(r, form.key.value, fileFields, codec) == Response(Aborted, r)
  {
    var key := form.key.value;
    var v := Created(form, NextPosition(t.settings), codec);
    StoredInserts(t, form, codec);
    DeletingHookRaisesWithoutAttachments(t.attachments, v, fileFields, codec);
  }

  // ---------------------------------------------------------------------
  // update

  /** When update() writes, and that it writes nothing otherwise. */
  lemma UpdatedOutcome(t: Tables, form: SettingForm, codec: Codec)
    ensures var r := Updated(t, form, codec);
      (r.outcome == Invalid <==> !UpdateValid(form)) &&
      (r.outcome == NotFound <==> UpdateValid(form) && form.oldKey.value !in t.settings) &&
      (r.outcome == Ok <==> UpdateValid(form) && form.oldKey.value in t.settings && form.options.Sent? &&
                            (form.key.value == form.oldKey.value || form.key.value !in t.settings)) &&
      (r.outcome != Ok ==> r.tables == t)
  {
  }

  /**
   * A successful update() moves the row from the old key to the new one with
   * the form's columns, keeps the columns the form does not send, leaves the
   * other rows and the attachments alone, and stores options that decode to
   * what was sent.
   */
  lemma UpdatedRenames(t: Tables, form: SettingForm, codec: Codec)
    requires UpdateValid(form) && form.oldKey.value in t.settings && form.options.Sent?
    requires form.key.value == form.oldKey.value || form.key.value !in t.settings
    ensures var r, oldKey, newKey := Updated(t, form, codec).tables, form.oldKey.value, form.key.value;
      newKey in r.settings &&
      var before, after := t.settings[oldKey], r.settings[newKey];
      r.attachments == t.attachments &&
      r.settings.Keys == (t.settings.Keys - {oldKey}) + {newKey} &&
      (forall k :: k in t.settings && k != oldKey ==> r.settings[k] == t.settings[k]) &&
      after.typ == form.typ.value && after.name == form.name.value && after.group == form.group.value &&
      after.position == SentOr(form.position, before.position) &&
      after.description == SentOr(form.description, before.description) &&
      after.value == SentOr(form.value, before.value) &&
      after.isArrayValue == SentOr(form.isArrayValue, before.isArrayValue) &&
      (Lawful(codec) ==> codec.decode(after.options) == form.options.v)
  {
    var oldKey, newKey := form.oldKey.value, form.key.value;
    var after := Filled(t.settings[oldKey], form, form.options.v, codec);
    UpdatedWrites(t, form, codec);
    RenameKeepsOthers(t.settings, oldKey, newKey, after);
    assert Lawful(codec) ==> codec.decode(codec.encode(form.options.v)) == form.options.v;
  }

  /** Moving a row to another key changes only those two keys. */
  lemma RenameKeepsOthers(m: map<string, Setting>, oldKey: string, newKey: string, v: Setting)
    requires oldKey in m
    ensures var r := (m - {oldKey})[newKey := v];
      r.Keys == (m.Keys - {oldKey}) + {newKey} && r[newKey] == v &&
      forall k :: k in m && k != oldKey && k != newKey ==> r[k] == m[k]
  {
  }

  /** The row a successful update() writes. */
  lemma UpdatedWrites(t: Tables, form: SettingForm, codec: Codec)
    requires UpdateValid(form) && form.oldKey.value in t.settings && form.options.Sent?
    requires form.key.value == form.oldKey.value || form.key.value !in t.settings
    ensures var oldKey := form.oldKey.value;
      Updated(t, form, codec) == Response(Ok, t.(settings := (t.settings - {oldKey})[form.key.value :=
                                          Filled(t.settings[oldKey], form, form.options.v, codec)]))
  {
  }

  /** Moving a row to a free key without changing its position keeps positions distinct. */
  lemma RenameKeepsDistinct(m: map<string, Setting>, oldKey: string, newKey: string, v: Setting)
    requires DistinctPositions(m) && oldKey in m && (newKey == oldKey || newKey !in m)
    requires v.position == m[oldKey].position
    ensures DistinctPositions((m - {oldKey})[newKey := v])
  {
    var r := (m - {oldKey})[newKey := v];
    forall a, b | a in r && b in r && a != b ensures r[a].position != r[b].position {
      var a0 := if a == newKey then oldKey else a;
      var b0 := if b == newKey then oldKey else b;
      assert r[a].position == m[a0].position;
      assert r[b].position == m[b0].position;
    }
  }

  /** An update() that does not send a position keeps positions distinct. */
  lemma UpdatedKeepsDistinct(t: Tables, form: SettingForm, codec: Codec)
    requires DistinctPositions(t.settings) && form.position.Unsent?
    ensures DistinctPositions(Updated(t, form, codec).tables.settings)
  {
    if UpdateValid(form) && form.oldKey.value in t.settings && form.options.Sent? &&
       (form.key.value == form.oldKey.value || form.key.value !in t.settings) {
      var oldKey := form.oldKey.value;
      UpdatedWrites(t, form, codec);
      RenameKeepsDistinct(t.settings, oldKey, form.key.value, Filled(t.settings[oldKey], form, form.options.v, codec));
    } else {
      UpdatedOutcome(t, form, codec);
    }
  }

  // ---------------------------------------------------------------------
  // save

  /** When save() succeeds, and that it writes nothing when it does not. */
  lemma SavedOutcome(t: Tables, clicked: string, fields: map<string, SaveField>, codec: Codec,
                     same: (Json, Json) -> bool)
    ensures var r := Saved(t, clicked, fields, codec, same);
      (r.outcome == NotFound <==> clicked !in t.settings) &&
      (r.outcome == Aborted <==> clicked in t.settings && clicked !in fields) &&
      (r.outcome == Ok <==> clicked in t.settings && clicked in fields) &&
      (r.outcome != Ok ==> r.tables == t)
  {
  }

  /** save() changes at most the value and is_array_value of the clicked setting. */
  lemma SavedTouchesOnlyValue(t: Tables, clicked: string, fields: map<string, SaveField>, codec: Codec,
                              same: (Json, Json) -> bool)
    requires clicked in t.settings
    ensures var r, s := Saved(t, clicked, fields, codec, same).tables, t.settings[clicked];
      r.attachments == t.attachments && r.settings.Keys == t.settings.Keys &&
      (forall k :: k in t.settings && k != clicked ==> r.settings[k] == t.settings[k]) &&
      r.settings[clicked].(isArrayValue := s.isArrayValue, value := s.value) == s
  {
  }

  /**
   * A value save() writes reads back through setting(): text as that text,
   * null as null, and an array, under a lawful codec, as the array itself.
   */
  lemma SavedReadsBack(t: Tables, clicked: string, fields: map<string, SaveField>, codec: Codec,
                       same: (Json, Json) -> bool, store: set<int>, fileFields: set<string>, default: Json)
    requires clicked in t.settings && clicked in fields && fields[clicked].Pair?
    requires t.settings[clicked].typ !in fileFields
    requires !same(SubmittedJson(fields[clicked].newValue), OldJson(t.settings[clicked], fields[clicked], codec))
    ensures var read, v := Read(Saved(t, clicked, fields, codec, same).tables.settings, store, fileFields, codec,
                                clicked, default), fields[clicked].newValue;
      (v.NullInput? ==> read == Raw(None)) &&
      (v.TextInput? ==> read == Raw(Some(v.text))) &&
      (v.ArrayInput? && Lawful(codec) ==> read == Decoded(v.j))
  {
    var m, v := Saved(t, clicked, fields, codec, same).tables.settings, fields[clicked].newValue;
    if v.ArrayInput? && Lawful(codec) {
      ReadEncodedArray(m, store, fileFields, codec, clicked, default, v.j);
    } else if !v.ArrayInput? {
      ReadPlain(m, store, fileFields, codec, clicked, default);
    }
  }

  /** Resubmitting the stored text of a plain setting writes nothing. */
  lemma SaveSameTextKeeps(t: Tables, clicked: string, fields: map<string, SaveField>, codec: Codec,
                          same: (Json, Json) -> bool, text: string)
    requires clicked in t.settings && !t.settings[clicked].isArrayValue
    requires clicked in fields && fields[clicked] == Pair(TextInput(text), Some(text))
    requires same(JStr(text), JStr(text))
    ensures Saved(t, clicked, fields, codec, same) == Response(Ok, t)
  {
  }

  /**
   * An array submitted over a plain setting whose old text already encodes
   * that array is compared decoded, found equal and not written: the
   * setting stays plain and keeps reading as its text.
   */
  lemma SaveArrayOverEncodedText(t: Tables, clicked: string, fields: map<string, SaveField>, codec: Codec,
                                 same: (Json, Json) -> bool, j: Json)
    requires Lawful(codec) && clicked in t.settings && !t.settings[clicked].isArrayValue
    requires clicked in fields && fields[clicked] == Pair(ArrayInput(j), Some(codec.encode(j)))
    requires same(j, j)
    ensures Saved(t, clicked, fields, codec, same) == Response(Ok, t)
  {
    assert codec.decode(codec.encode(j)) == j;
  }

  // ---------------------------------------------------------------------
  // delete

  /** delete() removes exactly the clicked row and the attachments it names. */
  lemma DeletedRemoves(t: Tables, clicked: string, fileFields: set<string>, codec: Codec)
    ensures var r := Deleted(t, clicked, fileFields, codec);
      (clicked !in t.settings ==> r == Response(NotFound, t)) &&
      (clicked in t.settings ==>
        r.outcome == Ok && r.tables.settings.Keys == t.settings.Keys - {clicked} &&
        (forall k :: k in r.tables.settings ==> r.tables.settings[k] == t.settings[k]) &&
        r.tables.attachments ==
          t.attachments - AttachmentsOf(Attachment(t.settings[clicked], fileFields, codec), t.attachments) &&
        (t.settings[clicked].typ !in fileFields ==> r.tables.attachments == t.attachments))
  {
  }

  /**
   * As written, delete() aborts for every setting without attachments to
   * fetch, where the corrected delete succeeds; on the others the two agree.
   */
  lemma DeletedAsWrittenAborts(t: Tables, clicked: string, fileFields: set<string>, codec: Codec)
    requires clicked in t.settings
    ensures var s := t.settings[clicked];
      (s.typ !in fileFields || IsBlank(s.value) ==>
        DeletedAsWritten(t, clicked, fileFields, codec) == Response(Aborted, t) &&
        Deleted(t, clicked, fileFields, codec) == Response(Ok, Tables(t.settings - {clicked}, t.attachments))) &&
      (s.typ in fileFields && !IsBlank(s.value) ==>
        DeletedAsWritten(t, clicked, fileFields, codec) == Deleted(t, clicked, fileFields, codec))
  {
    DeletingHookRaisesWithoutAttachments(t.attachments, t.settings[clicked], fileFields, codec);
  }

  // ---------------------------------------------------------------------
  // upDown

  /** With distinct positions ->first() has no choice to make: there is at most one nearest neighbour. */
  lemma CandidateUnique(m: map<string, Setting>, key: string, dir: Direction, a: string, b: string)
    requires key in m && DistinctPositions(m)
    requires a in Candidates(m, key, dir) && b in Candidates(m, key, dir)
    ensures a == b
  {
    assert a in Neighbours(m, key, dir) && b in Neighbours(m, key, dir);
    assert !Before(m[b].position, m[a].position, dir) && !Before(m[a].position, m[b].position, dir);
  }

  /** A nearest neighbour exists exactly when some neighbour does, so ->first() is null only past the group's end. */
  lemma CandidatesIffNeighbours(m: map<string, Setting>, key: string, dir: Direction)
    requires key in m
    ensures Candidates(m, key, dir) == {} <==> Neighbours(m, key, dir) == {}
  {
    var ns := Neighbours(m, key, dir);
    if exists k :: k in ns {
      var k0 :| k0 in ns;
      var ps := set k | k in ns :: m[k].position;
      assert m[k0].position in ps;
      var best := if dir == Up then Max(ps) else Min(ps);
      var kb :| kb in ns && m[kb].position == best;
      forall k2 | k2 in ns ensures !Before(m[k2].position, m[kb].position, dir) {
        assert m[k2].position in ps;
      }
      assert kb in Candidates(m, key, dir);
    }
  }

  /** Swap exchanges the two positions and changes nothing else. */
  lemma SwapExchanges(m: map<string, Setting>, a: string, b: string)
    requires a in m && b in m && a != b
    ensures var r := Swap(m, a, b);
      r.Keys == m.Keys &&
      r[a] == m[a].(position := m[b].position) && r[b] == m[b].(position := m[a].position) &&
      forall k :: k in m && k != a && k != b ==> r[k] == m[k]
  {
  }

  /** Swapping the same two settings again undoes the swap. */
  lemma SwapTwice(m: map<string, Setting>, a: string, b: string)
    requires a in m && b in m && a != b
    ensures Swap(Swap(m, a, b), a, b) == m
  {
    var r := Swap(m, a, b);
    SwapExchanges(m, a, b);
    SwapExchanges(r, a, b);
    var rr := Swap(r, a, b);
    assert rr.Keys == m.Keys;
    forall k | k in m ensures rr[k] == m[k] {
    }
  }

  /** Swap keeps positions distinct and hands out the same set of positions. */
  lemma SwapKeepsDistinct(m: map<string, Setting>, a: string, b: string)
    requires a in m && b in m && a != b && DistinctPositions(m)
    ensures DistinctPositions(Swap(m, a, b))
    ensures Positions(Swap(m, a, b)) == Positions(m)
  {
    var r := Swap(m, a, b);
    SwapExchanges(m, a, b);
    forall x, y | x in r && y in r && x != y ensures r[x].position != r[y].position {
      var x0 := if x == a then b else if x == b then a else x;
      var y0 := if y == a then b else if y == b then a else y;
      assert r[x].position == m[x0].position && r[y].position == m[y0].position;
    }
    forall p | p in Positions(m) ensures p in Positions(r) {
      var k :| k in m && m[k].position == p;
      var k0 := if k == a then b else if k == b then a else k;
      assert r[k0].position == p;
    }
  }

  /** How many settings of group g sit at position p: the group's multiset of positions, one count at a time. */
  function PositionCount(m: map<string, Setting>, g: string, p: int): nat {
    |set k | k in m && m[k].group == g && m[k].position == p|
  }

  /** Counting a set around two of its possible members. */
  lemma CountAround(s: set<string>, a: string, b: string)
    requires a != b
    ensures |s| == |s - {a, b}| + (if a in s then 1 else 0) + (if b in s then 1 else 0)
  {
    var rest := s - {a, b};
    var pair := s * {a, b};
    assert s == rest + pair;
    assert rest * pair == {};
    if a in s && b in s {
      assert pair == {a, b};
    } else if a in s {
      assert pair == {a};
    } else if b in s {
      assert pair == {b};
    } else {
      assert pair == {};
    }
  }

  /** Swapping two settings of one group keeps every group's multiset of positions. */
  lemma SwapKeepsGroupPositions(m: map<string, Setting>, a: string, b: string, g: string, p: int)
    requires a in m && b in m && a != b && m[a].group == m[b].group
    ensures PositionCount(Swap(m, a, b), g, p) == PositionCount(m, g, p)
  {
    SwapExchanges(m, a, b);
    ExchangedPositionCount(m, Swap(m, a, b), a, b, g, p);
  }

  lemma ExchangedPositionCount(m: map<string, Setting>, r: map<string, Setting>, a: string, b: string, g: string, p: int)
    requires a in m && b in m && a != b && m[a].group == m[b].group
    requires r.Keys == m.Keys
    requires r[a] == m[a].(position := m[b].position) && r[b] == m[b].(position := m[a].position)
    requires forall k :: k in m && k != a && k != b ==> r[k] == m[k]
    ensures PositionCount(r, g, p) == PositionCount(m, g, p)
  {
    var before := set k | k in m && m[k].group == g && m[k].position == p;
    var after := set k | k in r && r[k].group == g && r[k].position == p;
    forall k ensures k in after - {a, b} <==> k in before - {a, b} {
      if k in m && k != a && k != b {
        assert r[k] == m[k];
      }
    }
    assert after - {a, b} == before - {a, b};
    assert a in after <==> b in before;
    assert b in after <==> a in before;
    ExchangedCount(before, after, a, b);
  }

  /** Two sets that agree off {a, b} and hold a and b the other way round are equally large. */
  lemma ExchangedCount(before: set<string>, after: set<string>, a: string, b: string)
    requires a != b && after - {a, b} == before - {a, b}
    requires (a in after <==> b in before) && (b in after <==> a in before)
    ensures |after| == |before|
  {
    CountAround(before, a, b);
    CountAround(after, a, b);
  }

  /**
   * Moving back undoes a move: after swapping with its nearest neighbour
   * in one direction, the setting's only nearest neighbour the other way
   * is the same one, and swapping with it restores the table.
   */
  lemma UpDownReverts(m: map<string, Setting>, key: string, dir: Direction, n: string)
    requires key in m && DistinctPositions(m) && n in Candidates(m, key, dir)
    ensures Candidates(Swap(m, key, n), key, Opposite(dir)) == {n}
    ensures Swap(Swap(m, key, n), key, n) == m
  {
    var r := Swap(m, key, n);
    assert n in Neighbours(m, key, dir);
    SwapExchanges(m, key, n);
    SwapKeepsDistinct(m, key, n);
    SwapTwice(m, key, n);
    var back := Opposite(dir);
    var pk, pn := m[key].position, m[n].position;
    assert n in Neighbours(r, key, back);
    var ahead := Neighbours(m, key, dir);
    forall k2 | k2 in Neighbours(r, key, back) ensures !Before(r[k2].position, r[n].position, back) {
      if k2 != n {
        assert k2 != key && r[k2] == m[k2];
        assert Beyond(m[k2].position, pk, dir) ==> k2 in ahead;
      }
    }
    assert n in Candidates(r, key, back);
    forall c | c in Candidates(r, key, back) ensures c == n {
      CandidateUnique(r, key, back, c, n);
    }
  }

  // ---------------------------------------------------------------------
  // layout

  /** With distinct positions a group is the setting, the settings above it and those below it. */
  lemma GroupSplitsAround(m: map<string, Setting>, key: string)
    requires key in m && DistinctPositions(m)
    ensures |GroupOf(m, key)| == |Neighbours(m, key, Up)| + 1 + |Neighbours(m, key, Down)|
  {
    var up, down := Neighbours(m, key, Up), Neighbours(m, key, Down);
    forall k | k in GroupOf(m, key) ensures k in up + {key} + down {
      if k != key {
        assert m[k].position != m[key].position;
      }
    }
    assert GroupOf(m, key) == up + {key} + down;
    assert up * {key} == {};
    assert (up + {key}) * down == {};
  }

  /** The corrected buttons: up on every row but the first, down on every row but the last. */
  lemma RowControlsShowMoves(i: nat, n: nat)
    requires i < n
    ensures Up in RowControlsIntended(i, n) <==> i > 0
    ensures Down in RowControlsIntended(i, n) <==> i < n - 1
  {
  }

  /**
   * Under distinct positions the row of a setting sits at index |settings
   * above it|, and the corrected layout shows a move button exactly when
   * upDown() in that direction swaps rather than fails.
   */
  lemma ButtonsMatchMoves(m: map<string, Setting>, key: string)
    requires key in m && DistinctPositions(m)
    ensures var i, n := |Neighbours(m, key, Up)|, |GroupOf(m, key)|;
      i < n &&
      (Up in RowControlsIntended(i, n) <==> Candidates(m, key, Up) != {}) &&
      (Down in RowControlsIntended(i, n) <==> Candidates(m, key, Down) != {})
  {
    GroupSplitsAround(m, key);
    CandidatesIffNeighbours(m, key, Up);
    CandidatesIffNeighbours(m, key, Down);
    RowControlsShowMoves(|Neighbours(m, key, Up)|, |GroupOf(m, key)|);
  }

  /** As written, a group's only row shows a down button whose move always fails. */
  lemma LoneRowDownFails(t: Tables, key: string)
    requires key in t.settings && GroupOf(t.settings, key) == {key}
    ensures Neighbours(t.settings, key, Up) == {} && Down in RowControls(0, |GroupOf(t.settings, key)|)
    ensures UpDownResponse(t, key, Down, Response(Failed, t))
    ensures Down !in RowControlsIntended(0, |GroupOf(t.settings, key)|)
  {
    var m := t.settings;
    forall k | k in m && m[k].group == m[key].group ensures k == key {
      assert k in GroupOf(m, key);
    }
    assert |GroupOf(m, key)| == 1;
    assert forall k :: k in Neighbours(m, key, Up) ==> k == key;
    assert forall k :: k in Neighbours(m, key, Down) ==> k == key;
    assert Neighbours(m, key, Up) == {} && Neighbours(m, key, Down) == {};
    assert Candidates(m, key, Down) == {};
  }

  lemma {:induction false} CountRulesAppend(a: seq<Widget>, b: seq<Widget>)
    ensures CountRules(a + b) == CountRules(a) + CountRules(b)
  {
    if a == [] {
      assert a + b == b;
    } else {
      assert (a + b)[0] == a[0] && (a + b)[1..] == a[1..] + b;
      CountRulesAppend(a[1..], b);
    }
  }

  /** A rule separates consecutive rows: the first `count` rows of a group of n carry one per row but the last. */
  lemma {:induction false} RulesBetweenRows(count: nat, n: nat)
    requires count <= n
    ensures CountRules(Rows(count, n)) == if count == n && n > 0 then count - 1 else count
  {
    if count > 0 {
      RulesBetweenRows(count - 1, n);
      CountRulesAppend(Rows(count - 1, n), Row(count - 1, n));
      var head := [OldValue, SettingField, Usage, Controls(RowControlsIntended(count - 1, n))];
      var tail: seq<Widget> := if n - 1 > count - 1 then [Rule] else [];
      CountRulesAppend(head, tail);
      NoRules(head);
    }
  }

  lemma {:induction false} NoRules(ws: seq<Widget>)
    requires forall i :: 0 <= i < |ws| ==> ws[i] != Rule
    ensures CountRules(ws) == 0
  {
    if ws != [] {
      NoRules(ws[1..]);
    }
  }
}
