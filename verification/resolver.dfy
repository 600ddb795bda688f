/**
  Resolution of configuration values (`resolveParameters`). A string that
  starts with one `@` becomes an expression over the rest of the string; a
  string that starts with `@@` is a literal with the first `@` removed.
  Arrays are resolved entry by entry; everything else is left alone.
 */
module Resolver {
  import opened PhpValues

  /** The marker that introduces an expression. */
  const Marker: char := '@'

  predicate StartsWithMarker(s: string) {
    |s| > 0 && s[0] == Marker
  }

  function Resolve(v: Value): (r: Value)
    ensures Size(r) == Size(v)
    ensures v.Arr? <==> r.Arr?
    ensures v.Arr? ==> KeySet(r.entries) == KeySet(v.entries) && |r.entries| == |v.entries|
    ensures v.Arr? ==> (DistinctKeys(v.entries) <==> DistinctKeys(r.entries))
    ensures !v.Arr? && !v.Str? ==> r == v
    decreases v
  {
    match v
    case Arr(es) => Arr(ResolveEntries(es))
    case Str(s) =>
      if StartsWithMarker(s) then
        if |s| > 1 && s[1] == Marker then Str(s[1..]) else Expr(s[1..])
      else v
    case _ => v
  }

  /** `array_map` of the resolution over an array: same keys, same order. */
  function ResolveEntries(es: Entries): (r: Entries)
    ensures |r| == |es|
    ensures KeySet(r) == KeySet(es)
    ensures DistinctKeys(es) <==> DistinctKeys(r)
    ensures EntriesSize(r) == EntriesSize(es)
    decreases es
  {
    if |es| == 0 then []
    else
      var entry := es[0];
      assert entry in es && entry.1 < entry;
      [(entry.0, Resolve(entry.1))] + ResolveEntries(es[1..])
  }

  /** Resolution commutes with reading a key: the entry of `k` in the
      resolved array is the resolved entry of `k`. */
  lemma {:induction false} ResolveGet(es: Entries, k: string)
    ensures Get(ResolveEntries(es), k) == Resolve(Get(es, k))
  {
    if |es| > 0 && es[0].0 != k {
      ResolveGet(es[1..], k);
    }
  }

  /** The i-th resolved entry has the i-th key and the i-th value resolved. */
  lemma {:induction false} ResolveEntriesAt(es: Entries, i: nat)
    requires i < |es|
    ensures ResolveEntries(es)[i] == (es[i].0, Resolve(es[i].1))
  {
    if i > 0 {
      ResolveEntriesAt(es[1..], i - 1);
    }
  }

  /** Every resolved entry keeps its key and resolves its value. */
  lemma ResolveEntriesPointwise(es: Entries)
    ensures forall i :: 0 <= i < |es| ==> ResolveEntries(es)[i] == (es[i].0, Resolve(es[i].1))
  {
    forall i | 0 <= i < |es|
      ensures ResolveEntries(es)[i] == (es[i].0, Resolve(es[i].1))
    {
      ResolveEntriesAt(es, i);
    }
  }

  /** How a literal string must be written so that it resolves to itself:
      a leading marker is doubled. */
  function Escape(s: string): string {
    if StartsWithMarker(s) then [Marker] + s else s
  }

  /** Escaping is the inverse of resolution on strings: any literal can be
      written so that it survives resolution. */
  lemma EscapeRoundTrip(s: string)
    ensures Resolve(Str(Escape(s))) == Str(s)
  {
    if StartsWithMarker(s) {
      assert ([Marker] + s)[1..] == s;
    }
  }

  /** A string that resolves to a literal is the escaped form of that
      literal: resolution loses no string. */
  lemma LiteralIsEscaped(s: string)
    requires Resolve(Str(s)).Str?
    ensures Escape(Resolve(Str(s)).s) == s
  {
    if StartsWithMarker(s) {
      assert s == [Marker] + s[1..];
    }
  }

  /** One marker in front of a source that does not itself start with the
      marker yields an expression over that source. */
  lemma ExpressionRoundTrip(source: string)
    requires !StartsWithMarker(source)
    ensures Resolve(Str([Marker] + source)) == Expr(source)
  {
    assert ([Marker] + source)[1..] == source;
  }

  /** Every expression comes from a single marker, and its source never
      starts with the marker: `@@x` is always read as the literal `@x`. */
  lemma ExpressionFromSingleMarker(s: string)
    requires Resolve(Str(s)).Expr?
    ensures s == [Marker] + Resolve(Str(s)).source
    ensures !StartsWithMarker(Resolve(Str(s)).source)
  {
  }

  /** Resolution is not idempotent: an escaped literal `@@x` resolved a
      second time becomes the expression `x`. */
  lemma ResolveTwiceTurnsEscapeIntoExpression(source: string)
    requires !StartsWithMarker(source)
    ensures Resolve(Str([Marker, Marker] + source)) == Str([Marker] + source)
    ensures Resolve(Resolve(Str([Marker, Marker] + source))) == Expr(source)
  {
    assert ([Marker, Marker] + source)[1..] == [Marker] + source;
    ExpressionRoundTrip(source);
  }
}
