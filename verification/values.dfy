/**
  The values a navigation configuration is made of, and the few PHP array
  operations the compiler applies to them: reading a key, `isset`, `empty`,
  assignment, `unset` and `array_merge`.
 */
module PhpValues {

  /** A configuration value. `Arr` is a PHP array: an ordered list of
      (key, value) entries. Keys are strings; an integer key is written as
      its decimal text ("0", "1", ...). `Expr` is an expression object, the
      result of resolving a string that starts with one `@`. */
  datatype Value =
    | Null
    | Bool(b: bool)
    | Int(i: int)
    | Str(s: string)
    | Arr(entries: seq<(string, Value)>)
    | Expr(source: string)

  type Entries = seq<(string, Value)>

  /** The keys that occur in an array. */
  function KeySet(es: Entries): (ks: set<string>)
    ensures forall i :: 0 <= i < |es| ==> es[i].0 in ks
  {
    if |es| == 0 then {} else {es[0].0} + KeySet(es[1..])
  }

  /** No key occurs twice. Every PHP array has this shape. */
  predicate DistinctKeys(es: Entries) {
    |es| == 0 || (es[0].0 !in KeySet(es[1..]) && DistinctKeys(es[1..]))
  }

  /** `$a[k]`: the value stored under `k`, or null when there is none
      (PHP reads null, with a notice). */
  function Get(es: Entries, k: string): (v: Value)
    ensures k !in KeySet(es) ==> v == Null
  {
    if |es| == 0 then Null
    else if es[0].0 == k then es[0].1
    else Get(es[1..], k)
  }

  /** `$v[k]` on any value: reading a key of anything that is not an array
      yields null. */
  function Index(v: Value, k: string): Value {
    if v.Arr? then Get(v.entries, k) else Null
  }

  /** `isset($v[k])`: the key is present and its value is not null. */
  predicate Isset(v: Value, k: string) {
    Index(v, k) != Null
  }

  /** `empty($v)`: null, false, 0, "", "0" and the empty array are empty;
      an object never is. */
  predicate Empty(v: Value) {
    match v
    case Null => true
    case Bool(b) => !b
    case Int(i) => i == 0
    case Str(s) => s == "" || s == "0"
    case Arr(es) => |es| == 0
    case Expr(_) => false
  }

  /** `$a[k] = v`: overwrites the entry of `k` where it stands, or appends
      a new entry at the end. */
  function Set(es: Entries, k: string, v: Value): (r: Entries)
    ensures KeySet(r) == KeySet(es) + {k}
    ensures Get(r, k) == v
    ensures forall j :: j != k ==> Get(r, j) == Get(es, j)
    ensures k in KeySet(es) ==> |r| == |es|
    ensures k !in KeySet(es) ==> r == es + [(k, v)]
    ensures DistinctKeys(es) ==> DistinctKeys(r)
  {
    if |es| == 0 then [(k, v)]
    else if es[0].0 == k then [(k, v)] + es[1..]
    else [es[0]] + Set(es[1..], k, v)
  }

  /** `unset($a[k])`: removes the entry of `k`; the others keep their order. */
  function Unset(es: Entries, k: string): (r: Entries)
    ensures KeySet(r) == KeySet(es) - {k}
    ensures Get(r, k) == Null
    ensures forall j :: j != k ==> Get(r, j) == Get(es, j)
    ensures k !in KeySet(es) ==> r == es
    ensures DistinctKeys(es) ==> DistinctKeys(r)
  {
    if |es| == 0 then []
    else if es[0].0 == k then Unset(es[1..], k)
    else [es[0]] + Unset(es[1..], k)
  }

  /** `array_merge($a, $b)` on string-keyed arrays: the entries of `$b` are
      written over `$a` one after the other, so a key both arrays have keeps
      its place in `$a` and takes its value from `$b`, and the keys only `$b`
      has are appended in `$b`'s order. */
  function Merge(a: Entries, b: Entries): (r: Entries)
    ensures KeySet(r) == KeySet(a) + KeySet(b)
    ensures forall k :: k !in KeySet(b) ==> Get(r, k) == Get(a, k)
    ensures DistinctKeys(a) ==> DistinctKeys(r)
    decreases |b|
  {
    if |b| == 0 then a else Merge(Set(a, b[0].0, b[0].1), b[1..])
  }

  /** On a key of `$b`, `array_merge($a, $b)` holds `$b`'s value. */
  lemma {:induction false} MergePrefersSecond(a: Entries, b: Entries, k: string)
    requires DistinctKeys(b)
    requires k in KeySet(b)
    ensures Get(Merge(a, b), k) == Get(b, k)
    decreases |b|
  {
    if b[0].0 == k {
      assert k !in KeySet(b[1..]);
    } else {
      MergePrefersSecond(Set(a, b[0].0, b[0].1), b[1..], k);
    }
  }

  /** In an array without repeated keys, reading the key of an entry yields
      that entry's value. */
  lemma {:induction false} GetAt(es: Entries, i: nat)
    requires DistinctKeys(es) && i < |es|
    ensures Get(es, es[i].0) == es[i].1
  {
    if i > 0 {
      assert es[i] == es[1..][i - 1];
      GetAt(es[1..], i - 1);
      assert es[0].0 != es[i].0;
    }
  }

  /** The number of nodes of a value: the measure the recursion over nested
      menu items decreases. */
  function Size(v: Value): (n: nat)
    ensures n >= 1
    decreases v
  {
    match v
    case Arr(es) => 1 + EntriesSize(es)
    case _ => 1
  }

  function EntriesSize(es: Entries): nat
    decreases es
  {
    if |es| == 0 then 0
    else
      var entry := es[0];
      assert entry in es && entry.1 < entry;
      Size(entry.1) + EntriesSize(es[1..])
  }

  /** A value stored in an array is no larger than the array's entries. */
  lemma {:induction false} GetSize(es: Entries, k: string)
    requires k in KeySet(es)
    ensures Size(Get(es, k)) <= EntriesSize(es)
  {
    if es[0].0 != k {
      GetSize(es[1..], k);
    }
  }

  /** Reading a key never yields something larger than what is read from. */
  lemma IndexSize(v: Value, k: string)
    ensures Size(Index(v, k)) <= Size(v)
  {
    if v.Arr? && k in KeySet(v.entries) {
      GetSize(v.entries, k);
    }
  }
}
