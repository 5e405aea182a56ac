/** The canonical parameter string that Crypto.com requests are signed over. */
module ParamsString {
  import opened Options
  import opened Sorting

  /** A JSON value; a number is the text it displays as, an object its entries in
  insertion order. */
  datatype Value =
    | Null
    | Bool(b: bool)
    | Number(text: string)
    | String(s: string)
    | Array(items: seq<Value>)
    | Object(entries: seq<Entry>)

  datatype Entry = Entry(key: string, value: Value)

  // Key order

  predicate LexLeq(a: string, b: string) {
    a == "" || (b != "" && (a[0] < b[0] || (a[0] == b[0] && LexLeq(a[1..], b[1..]))))
  }

  lemma {:induction false} LexTotal(a: string, b: string)
    ensures LexLeq(a, b) || LexLeq(b, a)
    ensures LexLeq(a, b) && LexLeq(b, a) ==> a == b
  {
    if a == "" || b == "" {
    } else {
      LexTotal(a[1..], b[1..]);
      assert a == [a[0]] + a[1..] && b == [b[0]] + b[1..];
    }
  }

  lemma {:induction false} LexTransitive(a: string, b: string, c: string)
    requires LexLeq(a, b) && LexLeq(b, c)
    ensures LexLeq(a, c)
  {
    if a != "" && a[0] == b[0] == c[0] {
      LexTransitive(a[1..], b[1..], c[1..]);
    }
  }

  /** `a` and `b` agree on their first `k` characters, and then `a` has the smaller one. */
  ghost predicate SmallerAt(a: string, b: string, k: nat) {
    k < |a| && k < |b| && a[..k] == b[..k] && a[k] < b[k]
  }

  ghost predicate InAlphabet(a: string, b: string) {
    a <= b || exists k :: SmallerAt(a, b, k)
  }

  lemma SameHead(a: string, b: string, k: nat)
    requires SmallerAt(a, b, k) && k > 0
    ensures a[0] == b[0]
  {
    assert a[0] == a[..k][0] && b[0] == b[..k][0];
  }

  /** The comparison is the alphabetical order: a prefix comes first, else the smaller
  character at the first difference decides. */
  lemma {:induction false} ComparesAlphabetically(a: string, b: string)
    ensures LexLeq(a, b) <==> InAlphabet(a, b)
  {
    if a == "" || b == "" {
    } else if a[0] == b[0] {
      var c, d := a[1..], b[1..];
      ComparesAlphabetically(c, d);
      assert a == [a[0]] + c && b == [b[0]] + d;
      assert c <= d ==> a <= b;
      assert a <= b ==> c <= d;
      forall k: nat | SmallerAt(c, d, k) ensures SmallerAt(a, b, k + 1) {
        assert a[..k + 1] == [a[0]] + c[..k] && b[..k + 1] == [b[0]] + d[..k];
      }
      forall k: nat | SmallerAt(a, b, k) ensures k > 0 && SmallerAt(c, d, k - 1) {
        assert c[..k - 1] == a[..k][1..] && d[..k - 1] == b[..k][1..];
      }
    } else {
      assert a[..0] == b[..0];
      assert a[0] < b[0] ==> SmallerAt(a, b, 0);
      forall k: nat | SmallerAt(a, b, k) ensures k == 0 {
        if k > 0 {
          SameHead(a, b, k);
        }
      }
    }
  }

  /** Every key is followed only by keys that come after it in the alphabet. */
  ghost predicate Alphabetical(keys: seq<string>) {
    forall i, j :: 0 <= i < j < |keys| ==> InAlphabet(keys[i], keys[j])
  }

  lemma AlphabeticalIsSorted(keys: seq<string>)
    ensures Alphabetical(keys) <==> Sorted(LexLeq, keys)
  {
    forall i, j | 0 <= i < j < |keys| ensures LexLeq(keys[i], keys[j]) <==> InAlphabet(keys[i], keys[j]) {
      ComparesAlphabetically(keys[i], keys[j]);
    }
  }

  lemma LexOrder()
    ensures TotalOrder(LexLeq)
  {
    forall a, b ensures LexLeq(a, b) || LexLeq(b, a) {
      LexTotal(a, b);
    }
    forall a, b, c | LexLeq(a, b) && LexLeq(b, c) ensures LexLeq(a, c) {
      LexTransitive(a, b, c);
    }
  }

  lemma LexAntisymmetric(keys: seq<string>)
    ensures Antisymmetric(LexLeq, keys)
  {
    forall i, j | 0 <= i < |keys| && 0 <= j < |keys| && LexLeq(keys[i], keys[j]) && LexLeq(keys[j], keys[i])
      ensures keys[i] == keys[j]
    {
      LexTotal(keys[i], keys[j]);
    }
  }

  /** Two alphabetical listings of the same keys are the same listing. */
  lemma SameKeyOrder(a: seq<string>, b: seq<string>)
    requires Sorted(LexLeq, a) && Sorted(LexLeq, b) && multiset(a) == multiset(b)
    ensures a == b
  {
    LexOrder();
    LexAntisymmetric(a);
    SortedIsUnique(LexLeq, a, b);
  }

  // The parameter string

  function Keys(entries: seq<Entry>): (keys: seq<string>)
    ensures |keys| == |entries|
    ensures forall i :: 0 <= i < |keys| ==> keys[i] == entries[i].key
  {
    seq(|entries|, i requires 0 <= i < |entries| => entries[i].key)
  }

  function Find(entries: seq<Entry>, key: string): (i: nat)
    requires key in Keys(entries)
    ensures i < |entries| && entries[i].key == key
  {
    if entries[0].key == key then 0 else 1 + Find(entries[1..], key)
  }

  function Params(v: Value): string
    decreases v, 0
  {
    match v
    case Null => ""
    case Bool(b) => if b then "true" else "false"
    case Number(text) => text
    case String(s) => s
    case Array(items) => ParamsOfItems(items)
    case Object(entries) => ParamsOfKeys(entries, SortedKeys(entries))
  }

  function SortedKeys(entries: seq<Entry>): (keys: seq<string>)
    ensures forall k :: k in keys ==> k in Keys(entries)
  {
    assert forall k | k in Sort(LexLeq, Keys(entries)) :: k in Keys(entries) by {
      forall k | k in Sort(LexLeq, Keys(entries)) ensures k in Keys(entries) {
        SortAddsNothing(LexLeq, Keys(entries), k);
      }
    }
    Sort(LexLeq, Keys(entries))
  }

  function ParamsOfItems(items: seq<Value>): string
    decreases items, 0
  {
    if items == [] then "" else Params(items[0]) + ParamsOfItems(items[1..])
  }

  function ParamsOfKeys(entries: seq<Entry>, keys: seq<string>): string
    requires forall k :: k in keys ==> k in Keys(entries)
    decreases entries, |keys|
  {
    if keys == [] then ""
    else keys[0] + Params(entries[Find(entries, keys[0])].value) + ParamsOfKeys(entries, keys[1..])
  }

  // Reordering

  ghost predicate DistinctKeys(entries: seq<Entry>) {
    forall i, j :: 0 <= i < j < |entries| ==> entries[i].key != entries[j].key
  }

  /** No object at any depth repeats a key. */
  ghost predicate WellFormed(v: Value) {
    match v
    case Array(items) => forall i :: 0 <= i < |items| ==> WellFormed(items[i])
    case Object(entries) =>
      DistinctKeys(entries) && forall i :: 0 <= i < |entries| ==> WellFormed(entries[i].value)
    case _ => true
  }

  /** The same value up to the order of object entries, at any depth. */
  ghost predicate SameUpToOrder(v: Value, w: Value)
    decreases v
  {
    match v
    case Array(items) =>
      && w.Array?
      && |w.items| == |items|
      && forall i :: 0 <= i < |items| ==> SameUpToOrder(items[i], w.items[i])
    case Object(entries) =>
      && w.Object?
      && multiset(Keys(entries)) == multiset(Keys(w.entries))
      && forall i, j :: 0 <= i < |entries| && 0 <= j < |w.entries| && entries[i].key == w.entries[j].key ==>
                          SameUpToOrder(entries[i].value, w.entries[j].value)
    case _ => v == w
  }

  lemma KeysSorted(entries: seq<Entry>)
    ensures Sorted(LexLeq, SortedKeys(entries)) && multiset(SortedKeys(entries)) == multiset(Keys(entries))
  {
    LexOrder();
    SortSorts(LexLeq, Keys(entries));
    SortKeeps(LexLeq, Keys(entries));
  }

  lemma SameSortedKeys(a: seq<Entry>, b: seq<Entry>)
    requires multiset(Keys(a)) == multiset(Keys(b))
    ensures SortedKeys(a) == SortedKeys(b)
  {
    KeysSorted(a);
    KeysSorted(b);
    SameKeyOrder(SortedKeys(a), SortedKeys(b));
  }

  lemma {:induction false} SameItems(items: seq<Value>, other: seq<Value>)
    requires |items| == |other|
    requires forall i :: 0 <= i < |items| ==>
      WellFormed(items[i]) && WellFormed(other[i]) && SameUpToOrder(items[i], other[i])
    ensures ParamsOfItems(items) == ParamsOfItems(other)
    decreases items, 0
  {
    if items == [] {
    } else {
      ReorderingKeepsParams(items[0], other[0]);
      SameItems(items[1..], other[1..]);
    }
  }

  lemma {:induction false} SameKeys(entries: seq<Entry>, other: seq<Entry>, keys: seq<string>)
    requires forall k :: k in keys ==> k in Keys(entries) && k in Keys(other)
    requires forall i :: 0 <= i < |entries| ==> WellFormed(entries[i].value)
    requires forall j :: 0 <= j < |other| ==> WellFormed(other[j].value)
    requires forall i, j :: 0 <= i < |entries| && 0 <= j < |other| && entries[i].key == other[j].key ==>
      SameUpToOrder(entries[i].value, other[j].value)
    ensures ParamsOfKeys(entries, keys) == ParamsOfKeys(other, keys)
    decreases entries, |keys|
  {
    if keys == [] {
    } else {
      var i, j := Find(entries, keys[0]), Find(other, keys[0]);
      ReorderingKeepsParams(entries[i].value, other[j].value);
      SameKeys(entries, other, keys[1..]);
    }
  }

  /** Values that differ only in the order of object keys, at any nesting depth, are
  signed over the same parameter string. */
  lemma {:induction false} ReorderingKeepsParams(v: Value, w: Value)
    requires WellFormed(v) && WellFormed(w) && SameUpToOrder(v, w)
    ensures Params(v) == Params(w)
    decreases v, 0
  {
    match v
    case Array(items) =>
      SameItems(items, w.items);
    case Object(entries) =>
      SameSortedKeys(entries, w.entries);
      SameKeys(entries, w.entries, SortedKeys(entries));
    case _ =>
  }

  /** Each key followed by its value's string, in the order listed. */
  function Concatenated(entries: seq<Entry>): string {
    if entries == [] then "" else entries[0].key + Params(entries[0].value) + Concatenated(entries[1..])
  }

  lemma {:induction false} ParamsFromKey(entries: seq<Entry>, i: nat)
    requires DistinctKeys(entries) && i <= |entries|
    ensures forall k :: k in Keys(entries)[i..] ==> k in Keys(entries)
    ensures ParamsOfKeys(entries, Keys(entries)[i..]) == Concatenated(entries[i..])
    decreases |entries| - i
  {
    var keys := Keys(entries);
    if i < |entries| {
      ParamsFromKey(entries, i + 1);
      assert keys[i..][1..] == keys[i + 1..] && entries[i..][1..] == entries[i + 1..];
      assert Find(entries, keys[i]) == i;
    }
  }

  /** An object whose keys are listed alphabetically is signed as its keys and values in
  turn; with `ReorderingKeepsParams` this fixes the string of every object. */
  lemma SortedObjectIsConcatenated(entries: seq<Entry>)
    requires DistinctKeys(entries) && Alphabetical(Keys(entries))
    ensures Params(Object(entries)) == Concatenated(entries)
  {
    AlphabeticalIsSorted(Keys(entries));
    KeysSorted(entries);
    SameKeyOrder(SortedKeys(entries), Keys(entries));
    ParamsFromKey(entries, 0);
    assert Keys(entries)[0..] == Keys(entries) && entries[0..] == entries;
  }

  /** The text of a leaf: nothing for null, the two words, and text as it is. */
  lemma LeafTexts(text: string)
    ensures Params(Null) == "" && Params(Bool(true)) == "true" && Params(Bool(false)) == "false"
    ensures Params(Number(text)) == text && Params(String(text)) == text
  {
  }

  /** An array is its items in order, with nothing between them. */
  lemma ArrayIsItemsInOrder(items: seq<Value>, item: Value)
    ensures Params(Array([])) == ""
    ensures Params(Array([item] + items)) == Params(item) + Params(Array(items))
  {
    assert ([item] + items)[1..] == items;
  }

  /** An object is its alphabetically first key, that key's value, and then the rest. */
  lemma ObjectIsFirstKeyAndRest(entry: Entry, entries: seq<Entry>)
    requires DistinctKeys([entry] + entries) && Alphabetical(Keys([entry] + entries))
    ensures Params(Object([])) == ""
    ensures Params(Object([entry] + entries)) == entry.key + Params(entry.value) + Params(Object(entries))
  {
    var all := [entry] + entries;
    SortedObjectIsConcatenated([]);
    SortedObjectIsConcatenated(all);
    assert all[1..] == entries && Keys(all)[1..] == Keys(entries);
    assert forall i | 0 <= i < |entries| :: entries[i] == all[i + 1] && Keys(entries)[i] == Keys(all)[i + 1];
    assert DistinctKeys(entries) by {
      forall i, j | 0 <= i < j < |entries| ensures entries[i].key != entries[j].key {
        assert all[i + 1].key != all[j + 1].key;
      }
    }
    assert Alphabetical(Keys(entries)) by {
      forall i, j | 0 <= i < j < |entries| ensures InAlphabet(Keys(entries)[i], Keys(entries)[j]) {
        assert InAlphabet(Keys(all)[i + 1], Keys(all)[j + 1]);
      }
    }
    SortedObjectIsConcatenated(entries);
  }

  lemma SwappedEntries(a: Entry, b: Entry)
    requires WellFormed(a.value) && WellFormed(b.value) && a.key != b.key
    ensures Params(Object([a, b])) == Params(Object([b, a]))
  {
    assert multiset([a, b]) == multiset([b, a]);
    PermutedObjectIsSame([a, b], [b, a]);
    ReorderingKeepsParams(Object([a, b]), Object([b, a]));
  }

  /** Of two keys the alphabetically first one leads, whichever was inserted first. */
  lemma TwoKeys(first: Entry, second: Entry)
    requires WellFormed(first.value) && WellFormed(second.value)
    requires first.key != second.key && InAlphabet(first.key, second.key)
    ensures Params(Object([second, first])) == first.key + Params(first.value) + (second.key + Params(second.value))
  {
    SwappedEntries(first, second);
    assert [first] + [second] == [first, second] && [second] + [] == [second];
    ObjectIsFirstKeyAndRest(first, [second]);
    ObjectIsFirstKeyAndRest(second, []);
  }

  /** Any permutation of the entries of an object is such a reordering. */
  lemma PermutedObjectIsSame(entries: seq<Entry>, other: seq<Entry>)
    requires WellFormed(Object(entries)) && multiset(entries) == multiset(other)
    ensures SameUpToOrder(Object(entries), Object(other))
  {
    KeysOfPermutation(entries, other);
    forall i, j | 0 <= i < |entries| && 0 <= j < |other| && entries[i].key == other[j].key
      ensures SameUpToOrder(entries[i].value, other[j].value)
    {
      assert other[j] in multiset(entries);
      var k :| 0 <= k < |entries| && entries[k] == other[j];
      SameAsItself(entries[i].value);
    }
  }

  lemma {:induction false} SameAsItself(v: Value)
    requires WellFormed(v)
    ensures SameUpToOrder(v, v)
  {
    match v
    case Array(items) =>
      forall i | 0 <= i < |items| ensures SameUpToOrder(items[i], items[i]) {
        SameAsItself(items[i]);
      }
    case Object(entries) =>
      forall i | 0 <= i < |entries| ensures SameUpToOrder(entries[i].value, entries[i].value) {
        SameAsItself(entries[i].value);
      }
    case _ =>
  }

  function Cut(a: seq<Entry>, k: nat): seq<Entry>
    requires k < |a|
  {
    a[..k] + a[k + 1..]
  }

  lemma CutOne(a: seq<Entry>, k: nat)
    requires k < |a|
    ensures multiset(Cut(a, k)) == multiset(a) - multiset{a[k]}
  {
    assert a == a[..k] + [a[k]] + a[k + 1..];
  }

  lemma CutKey(a: seq<Entry>, k: nat)
    requires k < |a|
    ensures multiset(Keys(a)) == multiset(Keys(Cut(a, k))) + multiset{a[k].key}
  {
    var left, right := Keys(a[..k]), Keys(a[k + 1..]);
    assert Keys(a) == left + [a[k].key] + right;
    assert Keys(Cut(a, k)) == left + right;
  }

  lemma {:induction false} KeysOfPermutation(a: seq<Entry>, b: seq<Entry>)
    requires multiset(a) == multiset(b)
    ensures multiset(Keys(a)) == multiset(Keys(b))
    decreases |a|
  {
    assert |multiset(a)| == |a| && |multiset(b)| == |b|;
    if a != [] {
      assert a[0] in multiset(b);
      var k :| 0 <= k < |b| && b[k] == a[0];
      CutOne(a, 0);
      CutOne(b, k);
      KeysOfPermutation(Cut(a, 0), Cut(b, k));
      CutKey(a, 0);
      CutKey(b, k);
    } else {
      assert b == [];
    }
  }

  /** What is written plus what is left stays the same when one key and its value move over. */
  lemma KeyFirst(entries: seq<Entry>, keys: seq<string>, i: nat, value: Value, text: string)
    requires i < |keys| && forall k :: k in keys ==> k in Keys(entries)
    requires value == entries[Find(entries, keys[i])].value
    ensures text + ParamsOfKeys(entries, keys[i..]) ==
      text + keys[i] + Params(value) + ParamsOfKeys(entries, keys[i + 1..])
  {
    var left, rest := keys[i..], ParamsOfKeys(entries, keys[i + 1..]);
    assert left[1..] == keys[i + 1..];
    assert ParamsOfKeys(entries, left) == keys[i] + Params(value) + rest;
    assert text + (keys[i] + Params(value) + rest) == text + keys[i] + Params(value) + rest;
  }

  lemma ItemFirst(items: seq<Value>, i: nat, text: string)
    requires i < |items|
    ensures text + ParamsOfItems(items[i..]) == text + Params(items[i]) + ParamsOfItems(items[i + 1..])
  {
    var left, rest := items[i..], ParamsOfItems(items[i + 1..]);
    assert left[1..] == items[i + 1..];
    assert text + (Params(items[i]) + rest) == text + Params(items[i]) + rest;
  }

  // The serialiser

  class StringBuffer {
    var text: string

    constructor ()
      ensures text == ""
    {
      text := "";
    }

    method PushStr(s: string)
      modifies this
      ensures text == old(text) + s
    {
      text := text + s;
    }
  }

  method BuildParamsString(v: Value) returns (out: string)
    ensures out == Params(v)
  {
    var buffer := new StringBuffer();
    AppendValue(buffer, v, None);
    out := buffer.text;
  }

  /** The heading, when there is one, goes in front of the value. */
  method AppendValue(out: StringBuffer, v: Value, heading: Option<string>)
    modifies out
    ensures out.text == old(out.text) + heading.UnwrapOr("") + Params(v)
    decreases v, 0
  {
    if heading.Some? {
      out.PushStr(heading.value);
    }
    ghost var headed := out.text;
    assert headed == old(out.text) + heading.UnwrapOr("");
    match v {
      case Null =>
      case Bool(b) => out.PushStr(if b then "true" else "false");
      case Number(text) => out.PushStr(text);
      case String(s) => out.PushStr(s);
      case Array(items) => AppendItems(out, items);
      case Object(entries) =>
        var keys := SortedKeys(entries);
        assert Params(v) == ParamsOfKeys(entries, keys);
        AppendEntries(out, entries, keys);
    }
    assert out.text == headed + Params(v);
  }

  method AppendItems(out: StringBuffer, items: seq<Value>)
    modifies out
    ensures out.text == old(out.text) + ParamsOfItems(items)
    decreases items, 0
  {
    ghost var whole := out.text + ParamsOfItems(items);
    for i := 0 to |items|
      invariant out.text + ParamsOfItems(items[i..]) == whole
    {
      ItemFirst(items, i, out.text);
      AppendValue(out, items[i], None);
    }
  }

  method AppendEntries(out: StringBuffer, entries: seq<Entry>, keys: seq<string>)
    requires forall k :: k in keys ==> k in Keys(entries)
    modifies out
    ensures out.text == old(out.text) + ParamsOfKeys(entries, keys)
    decreases entries, 0
  {
    ghost var whole := out.text + ParamsOfKeys(entries, keys);
    for i := 0 to |keys|
      invariant out.text + ParamsOfKeys(entries, keys[i..]) == whole
    {
      var value := entries[Find(entries, keys[i])].value;
      KeyFirst(entries, keys, i, value, out.text);
      AppendValue(out, value, Some(keys[i]));
    }
  }
}
