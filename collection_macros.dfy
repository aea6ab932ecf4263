/**
 * The onlyAttr collection macro registered in
 * app/Providers/AppServiceProvider.php: every element of a collection is
 * cut down to the requested keys. An element is a PHP array, an ordered
 * list of (key, value) entries.
 */
module CollectionMacros {
  import opened Json

  /** One PHP array: its entries in order. */
  type Entries = seq<(string, Json)>

  /** The $keys argument: a single key or an array of keys. */
  datatype KeysArg = Single(key: string) | List(keys: seq<string>)

  /** is_array($keys) ? $keys : [$keys]. */
  function KeyList(arg: KeysArg): (r: seq<string>)
    ensures arg.Single? ==> r == [arg.key]
    ensures arg.List? ==> r == arg.keys
  {
    match arg
    case Single(k) => [k]
    case List(ks) => ks
  }

  /** collect($value)->only($keys)->toArray(): the requested entries, in their original order. */
  function Only(e: Entries, keys: seq<string>): (r: Entries)
    ensures |r| <= |e|
    decreases |e|
  {
    if e == [] then []
    else (if e[0].0 in keys then [e[0]] else []) + Only(e[1..], keys)
  }

  /** onlyAttr($keys): Only on every element. */
  function OnlyAttr(items: seq<Entries>, arg: KeysArg): (r: seq<Entries>)
    ensures |r| == |items|
    ensures forall i :: 0 <= i < |items| ==> r[i] == Only(items[i], KeyList(arg))
  {
    seq(|items|, i requires 0 <= i < |items| => Only(items[i], KeyList(arg)))
  }

  /** An entry survives exactly when it was there and its key was requested; values are untouched. */
  lemma {:induction false} OnlyKeepsRequested(e: Entries, keys: seq<string>)
    ensures forall x :: x in Only(e, keys) <==> x in e && x.0 in keys
    decreases |e|
  {
    if e != [] {
      OnlyKeepsRequested(e[1..], keys);
      assert forall x :: x in e <==> x == e[0] || x in e[1..];
    }
  }

  /** Only works entry by entry: it commutes with concatenation, so it keeps the entries' order. */
  lemma {:induction false} OnlyAppend(a: Entries, b: Entries, keys: seq<string>)
    ensures Only(a + b, keys) == Only(a, keys) + Only(b, keys)
    decreases |a|
  {
    if a == [] {
      assert a + b == b;
    } else {
      var head: Entries := if a[0].0 in keys then [a[0]] else [];
      assert (a + b)[0] == a[0] && (a + b)[1..] == a[1..] + b;
      calc {
        Only(a + b, keys);
        head + Only(a[1..] + b, keys);
        { OnlyAppend(a[1..], b, keys); }
        head + (Only(a[1..], keys) + Only(b, keys));
        (head + Only(a[1..], keys)) + Only(b, keys);
        Only(a, keys) + Only(b, keys);
      }
    }
  }

  /** An element whose keys were all requested is returned whole. */
  lemma {:induction false} OnlyAllRequested(e: Entries, keys: seq<string>)
    requires forall i :: 0 <= i < |e| ==> e[i].0 in keys
    ensures Only(e, keys) == e
    decreases |e|
  {
    if e != [] {
      OnlyAllRequested(e[1..], keys);
    }
  }

  /**
   * Every element of the result holds exactly the entries of the matching
   * element whose key was requested: the single key, or one of the list.
   */
  lemma OnlyAttrKeepsRequested(items: seq<Entries>, arg: KeysArg, i: int)
    requires 0 <= i < |items|
    ensures |OnlyAttr(items, arg)| == |items|
    ensures forall x :: x in OnlyAttr(items, arg)[i] <==>
      x in items[i] && (if arg.Single? then x.0 == arg.key else x.0 in arg.keys)
  {
    OnlyKeepsRequested(items[i], KeyList(arg));
  }

  /** Applying the macro twice with the same keys is applying it once. */
  lemma OnlyAttrIdempotent(items: seq<Entries>, arg: KeysArg)
    ensures OnlyAttr(OnlyAttr(items, arg), arg) == OnlyAttr(items, arg)
  {
    var once := OnlyAttr(items, arg);
    forall i | 0 <= i < |items| ensures Only(once[i], KeyList(arg)) == once[i] {
      OnlyKeepsRequested(items[i], KeyList(arg));
      forall j | 0 <= j < |once[i]| ensures once[i][j].0 in KeyList(arg) {
        assert once[i][j] in once[i];
      }
      OnlyAllRequested(once[i], KeyList(arg));
    }
  }

  /** A single key is the same request as the one-key list. */
  lemma OnlyAttrSingle(items: seq<Entries>, key: string)
    ensures OnlyAttr(items, Single(key)) == OnlyAttr(items, List([key]))
  {
  }

  /** Keys no element has leave a list of empty arrays, one per element. */
  lemma OnlyAttrNoMatch(items: seq<Entries>, arg: KeysArg)
    requires forall i, j :: 0 <= i < |items| && 0 <= j < |items[i]| ==> items[i][j].0 !in KeyList(arg)
    ensures forall i :: 0 <= i < |items| ==> OnlyAttr(items, arg)[i] == []
  {
    forall i | 0 <= i < |items| ensures Only(items[i], KeyList(arg)) == [] {
      OnlyNoneRequested(items[i], KeyList(arg));
    }
  }

  lemma {:induction false} OnlyNoneRequested(e: Entries, keys: seq<string>)
    requires forall j :: 0 <= j < |e| ==> e[j].0 !in keys
    ensures Only(e, keys) == []
    decreases |e|
  {
    if e != [] {
      OnlyNoneRequested(e[1..], keys);
    }
  }
}
