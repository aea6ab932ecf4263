/**
 * The settings administration screen (app/Orchid/Screens/SettingScreen.php):
 * the per-group layout of the settings, and the five actions that change
 * the settings table (store, update, save, delete, upDown). The database is
 * the screen's state: the settings table keyed by its primary key, and the
 * set of attachment ids.
 */
module SettingScreen {
  import opened Wrappers
  import opened Json
  import opened StringOps
  import opened SettingModel
  import opened SettingAccessor

  /** How an action ends. */
  datatype Outcome =
    | Ok        // Alert::success
    | Invalid   // the request failed validation; nothing is written
    | NotFound  // Alert::warning: the setting was not found
    | Failed    // upDown's rescue handler: Alert::error, nothing is written
    | Aborted   // an exception escapes the action before anything is written

  /** The two tables the actions work on. */
  datatype Tables = Tables(settings: map<string, Setting>, attachments: set<int>)

  /** An action's outcome and the tables afterwards. */
  datatype Response = Response(outcome: Outcome, tables: Tables)

  /** A request field that may be missing from the request altogether. */
  datatype Sent<T> = Unsent | Sent(v: T)

  function SentOr<T>(f: Sent<T>, default: T): T {
    match f
    case Unsent => default
    case Sent(v) => v
  }

  /** The create/edit modal's request; None stands for a field that is missing or null. */
  datatype SettingForm = SettingForm(
    key: Option<string>,
    name: Option<string>,
    group: Option<string>,
    typ: Option<string>,
    oldKey: Option<string>,
    options: Sent<Json>,
    description: Sent<Option<string>>,
    value: Sent<Option<string>>,
    position: Sent<int>,
    isArrayValue: Sent<bool>)

  /** Laravel's 'required' rule on a text field: present, and not blank once trimmed. */
  predicate Required(f: Option<string>) {
    f.Some? && Trim(f.value) != []
  }

  predicate StoreValid(form: SettingForm) {
    Required(form.key) && Required(form.name) && Required(form.group) && Required(form.typ)
  }

  predicate UpdateValid(form: SettingForm) {
    StoreValid(form) && Required(form.oldKey)
  }

  // ---------------------------------------------------------------------
  // store

  /** max('position') + 1: max over an empty table is null, and null + 1 is 1. */
  function NextPosition(m: map<string, Setting>): (r: int)
    ensures forall k :: k in m ==> m[k].position < r
    ensures m == map[] ==> r == 1
    ensures m != map[] ==> exists k :: k in m && m[k].position == r - 1
  {
    if m == map[] then 1
    else
      var k :| k in m;
      assert m[k].position in Positions(m);
      var top := Max(Positions(m));
      assert forall k :: k in m ==> m[k].position in Positions(m);
      top + 1
  }

  /** json_encode($data['options'] ?? []): a missing or null options field stores an empty list. */
  function OptionsOrEmpty(f: Sent<Json>): Json {
    match f
    case Unsent => JList([])
    case Sent(j) => if j.JNull? then JList([]) else j
  }

  /** The row create($data) inserts; columns the request does not send take their null/false defaults. */
  function Created(form: SettingForm, position: int, codec: Codec): Setting
    requires StoreValid(form)
  {
    Setting(form.typ.value, form.name.value, form.group.value, position,
            SentOr(form.description, None), SentOr(form.value, None),
            codec.encode(OptionsOrEmpty(form.options)), SentOr(form.isArrayValue, false))
  }

  /** store(): validate, then insert after the last position; an existing key violates the primary key. */
  function Stored(t: Tables, form: SettingForm, codec: Codec): Response {
    if !StoreValid(form) then Response(Invalid, t)
    else if form.key.value in t.settings then Response(Aborted, t)
    else Response(Ok, t.(settings := t.settings[form.key.value := Created(form, NextPosition(t.settings), codec)]))
  }

  // ---------------------------------------------------------------------
  // update

  /** fill($data): every fillable column the request sends is overwritten. */
  function Filled(s: Setting, form: SettingForm, options: Json, codec: Codec): Setting
    requires StoreValid(form)
  {
    Setting(form.typ.value, form.name.value, form.group.value, SentOr(form.position, s.position),
            SentOr(form.description, s.description), SentOr(form.value, s.value),
            codec.encode(options), SentOr(form.isArrayValue, s.isArrayValue))
  }

  /**
   * update(): validate, find the old key, encode the options (reading a
   * missing options field raises) and save the filled row under the key
   * the form names, which fails on a key taken by another row.
   */
  function Updated(t: Tables, form: SettingForm, codec: Codec): Response {
    if !UpdateValid(form) then Response(Invalid, t)
    else if form.oldKey.value !in t.settings then Response(NotFound, t)
    else if form.options.Unsent? then Response(Aborted, t)
    else
      var oldKey, newKey := form.oldKey.value, form.key.value;
      if newKey != oldKey && newKey in t.settings then Response(Aborted, t)
      else
        var s := Filled(t.settings[oldKey], form, form.options.v, codec);
        Response(Ok, t.(settings := (t.settings - {oldKey})[newKey := s]))
  }

  // ---------------------------------------------------------------------
  // save

  /** What the setting's field submits as new_value. */
  datatype Submitted = NullInput | TextInput(text: string) | ArrayInput(j: Json)

  /** The request entry under the setting's key: not an array, or the new_value/old_value pair. */
  datatype SaveField = NotArray | Pair(newValue: Submitted, oldValue: Option<string>)

  function SubmittedJson(v: Submitted): Json {
    match v
    case NullInput => JNull
    case TextInput(text) => JStr(text)
    case ArrayInput(j) => j
  }

  function RawJson(v: Option<string>): Json {
    match v
    case None => JNull
    case Some(text) => JStr(text)
  }

  /** The value column written for a submitted value: arrays are stored encoded. */
  function StoredText(v: Submitted, codec: Codec): Option<string> {
    match v
    case NullInput => None
    case TextInput(text) => Some(text)
    case ArrayInput(j) => Some(codec.encode(j))
  }

  /** The old value as compared: decoded when the setting or the new value is an array. */
  function OldJson(s: Setting, f: SaveField, codec: Codec): Json
    requires f.Pair?
  {
    if s.isArrayValue || f.newValue.ArrayInput? then DecodeColumn(codec, f.oldValue) else RawJson(f.oldValue)
  }

  /**
   * save(): find the clicked setting, read its entry from the request
   * (a missing entry raises), and write value and is_array_value when the
   * new value differs from the old one under `same`, PHP's loose !=.
   */
  function Saved(t: Tables, clicked: string, fields: map<string, SaveField>, codec: Codec,
                 same: (Json, Json) -> bool): Response {
    if clicked !in t.settings then Response(NotFound, t)
    else if clicked !in fields then Response(Aborted, t)
    else
      var s, f := t.settings[clicked], fields[clicked];
      if f.NotArray? || same(SubmittedJson(f.newValue), OldJson(s, f, codec)) then Response(Ok, t)
      else
        var written := s.(isArrayValue := f.newValue.ArrayInput?, value := StoredText(f.newValue, codec));
        Response(Ok, t.(settings := t.settings[clicked := written]))
  }

  // ---------------------------------------------------------------------
  // delete

  /** delete(), with the deleting hook that removes exactly the setting's attachments. */
  function Deleted(t: Tables, clicked: string, fileFields: set<string>, codec: Codec): Response {
    if clicked !in t.settings then Response(NotFound, t)
    else
      var s := t.settings[clicked];
      Response(Ok, Tables(t.settings - {clicked}, AfterDeletingHook(t.attachments, s, fileFields, codec)))
  }

  /** delete() as written: the hook's ->get() raises when the setting has no attachments, cancelling the delete. */
  function DeletedAsWritten(t: Tables, clicked: string, fileFields: set<string>, codec: Codec): Response {
    if clicked !in t.settings then Response(NotFound, t)
    else
      var s := t.settings[clicked];
      match AfterDeletingHookAsWritten(t.attachments, s, fileFields, codec)
      case None => Response(Aborted, t)
      case Some(rest) => Response(Ok, Tables(t.settings - {clicked}, rest))
  }

  // ---------------------------------------------------------------------
  // upDown

  /** '<' moves a setting up (towards lower positions), '>' down. */
  datatype Direction = Up | Down

  function Opposite(d: Direction): Direction {
    if d == Up then Down else Up
  }

  /** where('position', dir, current): strictly on the dir side of cur. */
  predicate Beyond(p: int, cur: int, dir: Direction) {
    if dir == Up then p < cur else p > cur
  }

  /** p comes before q in orderBy('position', desc for Up, asc for Down). */
  predicate Before(p: int, q: int, dir: Direction) {
    if dir == Up then p > q else p < q
  }

  /** No two settings share a position, as store() hands them out. */
  predicate DistinctPositions(m: map<string, Setting>) {
    forall a, b :: a in m && b in m && a != b ==> m[a].position != m[b].position
  }

  /** The settings of key's group, key included: one tab of the layout. */
  function GroupOf(m: map<string, Setting>, key: string): set<string>
    requires key in m
  {
    set k | k in m && m[k].group == m[key].group
  }

  /** The settings of key's group on the dir side of it. */
  function Neighbours(m: map<string, Setting>, key: string, dir: Direction): set<string>
    requires key in m
  {
    set k | k in m && m[k].group == m[key].group && Beyond(m[k].position, m[key].position, dir)
  }

  /** The rows ->first() may return: the nearest neighbours (several when positions tie). */
  function Candidates(m: map<string, Setting>, key: string, dir: Direction): (r: set<string>)
    requires key in m
    ensures r <= Neighbours(m, key, dir)
    ensures key !in r
  {
    set k | k in Neighbours(m, key, dir) &&
            forall k2 :: k2 in Neighbours(m, key, dir) ==> !Before(m[k2].position, m[k].position, dir)
  }

  /** The two saves of upDown: a takes b's position and b takes a's. */
  function Swap(m: map<string, Setting>, a: string, b: string): map<string, Setting>
    requires a in m && b in m
  {
    m[a := m[a].(position := m[b].position)][b := m[b].(position := m[a].position)]
  }

  /**
   * upDown() ends in Failed, with nothing written, when the clicked key or
   * a neighbour is missing (reading a property of null raises); otherwise
   * it swaps with one of the nearest neighbours.
   */
  ghost predicate UpDownResponse(t: Tables, key: string, dir: Direction, r: Response) {
    if key !in t.settings || Candidates(t.settings, key, dir) == {} then r == Response(Failed, t)
    else r.outcome == Ok && r.tables.attachments == t.attachments &&
         exists n :: n in Candidates(t.settings, key, dir) && r.tables.settings == Swap(t.settings, key, n)
  }

  // ---------------------------------------------------------------------
  // layout

  /** The widgets of one row of a group's tab. */
  datatype Widget = OldValue | SettingField | Usage | Controls(moves: seq<Direction>) | Rule

  /**
   * The move buttons of the row at index i of a group of n rows, ordered by
   * position, as written: the first row always gets a down button, even
   * when it is the group's only row.
   */
  function RowControls(i: nat, n: nat): seq<Direction> {
    if i == 0 then [Down]
    else if i == n - 1 then [Up]
    else [Up, Down]
  }

  /** The move buttons, corrected: a group's only row gets none. */
  function RowControlsIntended(i: nat, n: nat): seq<Direction> {
    if n == 1 then [] else RowControls(i, n)
  }

  /**
   * The widgets of row i: the hidden old value, the field, its usage, its
   * buttons, and a rule unless it is the last row. The buttons are the
   * corrected ones: a group's only row gets no move buttons.
   */
  function Row(i: nat, n: nat): seq<Widget> {
    [OldValue, SettingField, Usage, Controls(RowControlsIntended(i, n))] + (if n - 1 > i then [Rule] else [])
  }

  /** flatten(1) of the first `count` rows of a group of n. */
  function Rows(count: nat, n: nat): seq<Widget>
    decreases count
  {
    if count == 0 then [] else Rows(count - 1, n) + Row(count - 1, n)
  }

  function CountRules(ws: seq<Widget>): nat {
    if ws == [] then 0 else (if ws[0] == Rule then 1 else 0) + CountRules(ws[1..])
  }

  // ---------------------------------------------------------------------
  // the screen

  class Screen {
    var settings: map<string, Setting>
    var attachments: set<int>
    const fileFields: set<string>
    const codec: Codec
    const same: (Json, Json) -> bool

    function Current(): Tables
      reads this
    {
      Tables(settings, attachments)
    }

    constructor(settings: map<string, Setting>, attachments: set<int>, fileFields: set<string>, codec: Codec,
                same: (Json, Json) -> bool)
      ensures Current() == Tables(settings, attachments)
      ensures this.fileFields == fileFields && this.codec == codec && this.same == same
    {
      this.settings := settings;
      this.attachments := attachments;
      this.fileFields := fileFields;
      this.codec := codec;
      this.same := same;
    }

    method Store(form: SettingForm) returns (outcome: Outcome)
      modifies this
      ensures Response(outcome, Current()) == Stored(old(Current()), form, codec)
    {
      if !StoreValid(form) {
        return Invalid;
      }
      var key := form.key.value;
      if key in settings {
        return Aborted;
      }
      var position := NextPosition(settings);
      settings := settings[key := Created(form, position, codec)];
      outcome := Ok;
    }

    method Update(form: SettingForm) returns (outcome: Outcome)
      modifies this
      ensures Response(outcome, Current()) == Updated(old(Current()), form, codec)
    {
      if !UpdateValid(form) {
        return Invalid;
      }
      var oldKey := form.oldKey.value;
      if oldKey !in settings {
        return NotFound;
      }
      var setting := settings[oldKey];
      if form.options.Unsent? {
        return Aborted;
      }
      var options := form.options.v;
      setting := Filled(setting, form, options, codec);
      var newKey := form.key.value;
      if newKey != oldKey && newKey in settings {
        return Aborted;
      }
      settings := (settings - {oldKey})[newKey := setting];
      outcome := Ok;
    }

    method Save(clicked: string, fields: map<string, SaveField>) returns (outcome: Outcome)
      modifies this
      ensures Response(outcome, Current()) == Saved(old(Current()), clicked, fields, codec, same)
    {
      if clicked !in settings {
        return NotFound;
      }
      var setting := settings[clicked];
      if clicked !in fields {
        return Aborted;
      }
      var value := fields[clicked];
      if value.Pair? {
        var newJson := SubmittedJson(value.newValue);
        var oldJson := RawJson(value.oldValue);
        if setting.isArrayValue || value.newValue.ArrayInput? {
          oldJson := DecodeColumn(codec, value.oldValue);
        }
        if !same(newJson, oldJson) {
          var isArrayValue := value.newValue.ArrayInput?;
          settings := settings[clicked := setting.(isArrayValue := isArrayValue,
                                                   value := StoredText(value.newValue, codec))];
        }
      }
      outcome := Ok;
    }

    /**
     * delete(), corrected: the deleting hook removes the setting's
     * attachments one by one, then the row goes. The attachments are
     * looked up with the corrected ->get(), so a file setting with nothing
     * attached is deleted instead of raising.
     */
    method Delete(clicked: string) returns (outcome: Outcome)
      modifies this
      ensures Response(outcome, Current()) == Deleted(old(Current()), clicked, fileFields, codec)
    {
      if clicked !in settings {
        return NotFound;
      }
      var setting := settings[clicked];
      var found := AttachmentsOf(Attachment(setting, fileFields, codec), attachments);
      ghost var all := found;
      while found != {}
        invariant found <= all
        invariant settings == old(settings)
        invariant attachments == old(attachments) - (all - found)
        decreases found
      {
        var id :| id in found;
        attachments := attachments - {id};
        found := found - {id};
      }
      settings := settings - {clicked};
      outcome := Ok;
    }

    method UpDown(key: string, dir: Direction) returns (outcome: Outcome)
      modifies this
      ensures UpDownResponse(old(Current()), key, dir, Response(outcome, Current()))
    {
      if key !in settings {
        return Failed;
      }
      var current := settings[key];
      if Candidates(settings, key, dir) == {} {
        return Failed;
      }
      ghost var before := settings;
      var next :| next in Candidates(settings, key, dir);
      var toSwitch := settings[next];
      var position := current.position;
      settings := settings[key := current.(position := toSwitch.position)];
      settings := settings[next := toSwitch.(position := position)];
      assert settings == Swap(before, key, next);
      outcome := Ok;
    }
  }
}
