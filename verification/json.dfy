/**
 * A parsed JSON document, and the handful of JavaScript operations the
 * commands perform on it: reading a property, assigning one, deleting one,
 * `Object.keys`, and truthiness.
 *
 * Objects are ordered association lists, because key order is observable:
 * it is the order `Object.keys` lists and the order `JSON.stringify` writes.
 * An assignment to an existing key keeps its position; a new key goes last.
 */
module Json {
  import opened Wrappers
  import opened Strings

  datatype Json =
    | JNull
    | JBool(b: bool)
    | JNum(n: int)
    | JStr(s: string)
    | JArr(items: seq<Json>)
    | JObj(fields: seq<(string, Json)>)

  /** The result of reading a property: `undefined`, or a JSON value. */
  datatype Prop = Undefined | Defined(value: Json)

  /** How a JavaScript expression ended: normally with a value, or by
      throwing (a `TypeError` in every case modelled here). */
  datatype Completion<+T> = Normal(value: T) | Throw

  const EmptyObject: Json := JObj([])

  // ---------------------------------------------------------------------
  // Ordered objects

  function Keys(fs: seq<(string, Json)>): (ks: seq<string>)
    ensures |ks| == |fs|
    ensures forall i :: 0 <= i < |fs| ==> ks[i] == fs[i].0
  {
    if |fs| == 0 then [] else [fs[0].0] + Keys(fs[1..])
  }

  predicate UniqueKeys(fs: seq<(string, Json)>) {
    forall i, j :: 0 <= i < j < |fs| ==> fs[i].0 != fs[j].0
  }

  lemma UniqueCons(fs: seq<(string, Json)>)
    requires |fs| > 0
    ensures UniqueKeys(fs) <==> fs[0].0 !in Keys(fs[1..]) && UniqueKeys(fs[1..])
  {
    if fs[0].0 !in Keys(fs[1..]) && UniqueKeys(fs[1..]) {
      forall i, j | 0 <= i < j < |fs|
        ensures fs[i].0 != fs[j].0
      {
        if i == 0 {
          assert Keys(fs[1..])[j - 1] == fs[j].0;
        } else {
          assert fs[1..][i - 1] == fs[i] && fs[1..][j - 1] == fs[j];
        }
      }
    }
    if UniqueKeys(fs) {
      forall j | 0 <= j < |fs| - 1
        ensures Keys(fs[1..])[j] != fs[0].0
      {
        assert fs[j + 1].0 != fs[0].0;
      }
    }
  }

  /** `o[k]` on an object: the value stored under `k`. */
  function Lookup(fs: seq<(string, Json)>, k: string): (p: Prop)
    ensures p.Defined? <==> k in Keys(fs)
  {
    if |fs| == 0 then Undefined
    else if fs[0].0 == k then Defined(fs[0].1)
    else Lookup(fs[1..], k)
  }

  /** With unique keys, the entry at a key's position is what a lookup sees. */
  lemma {:induction false} LookupAt(fs: seq<(string, Json)>, i: nat)
    requires UniqueKeys(fs) && i < |fs|
    ensures Lookup(fs, fs[i].0) == Defined(fs[i].1)
  {
    if i > 0 {
      LookupAt(fs[1..], i - 1);
    }
  }

  /** `o[k] = v` on an object. */
  function Put(fs: seq<(string, Json)>, k: string, v: Json): (r: seq<(string, Json)>)
    ensures Keys(r) == if k in Keys(fs) then Keys(fs) else Keys(fs) + [k]
    ensures Lookup(r, k) == Defined(v)
    ensures forall k' :: k' != k ==> Lookup(r, k') == Lookup(fs, k')
    ensures forall i :: 0 <= i < |fs| && fs[i].0 != k ==> r[i] == fs[i]
    ensures UniqueKeys(fs) ==> UniqueKeys(r)
  {
    if |fs| == 0 then [(k, v)]
    else if fs[0].0 == k then
      PutHead(fs, k, v);
      [(k, v)] + fs[1..]
    else
      var rest := Put(fs[1..], k, v);
      PutCons(fs, k, v, rest);
      [fs[0]] + rest
  }

  /** The first-key case of `Put`: the head entry is replaced in place. */
  lemma PutHead(fs: seq<(string, Json)>, k: string, v: Json)
    requires |fs| > 0 && fs[0].0 == k
    ensures var r := [(k, v)] + fs[1..];
      && Keys(r) == Keys(fs)
      && Lookup(r, k) == Defined(v)
      && (forall k' :: k' != k ==> Lookup(r, k') == Lookup(fs, k'))
      && (forall i :: 0 <= i < |fs| && fs[i].0 != k ==> r[i] == fs[i])
      && (UniqueKeys(fs) ==> UniqueKeys(r))
  {
    var r := [(k, v)] + fs[1..];
    assert r[1..] == fs[1..];
    assert Keys(r) == Keys(fs);
    UniqueCons(fs);
    UniqueCons(r);
  }

  /** Storing the value a key already holds changes nothing. */
  lemma {:induction false} PutSame(fs: seq<(string, Json)>, k: string, v: Json)
    requires Lookup(fs, k) == Defined(v)
    ensures Put(fs, k, v) == fs
  {
    if fs[0].0 == k {
      assert [(k, v)] + fs[1..] == fs;
    } else {
      PutSame(fs[1..], k, v);
      assert [fs[0]] + fs[1..] == fs;
    }
  }

  lemma LookupCons(h: (string, Json), rest: seq<(string, Json)>, k: string)
    ensures Lookup([h] + rest, k) == if h.0 == k then Defined(h.1) else Lookup(rest, k)
  {
    assert ([h] + rest)[1..] == rest;
  }

  /** The step case of `Put`: the head is kept in front of the updated tail. */
  lemma PutCons(fs: seq<(string, Json)>, k: string, v: Json, rest: seq<(string, Json)>)
    requires |fs| > 0 && fs[0].0 != k
    requires Keys(rest) == if k in Keys(fs[1..]) then Keys(fs[1..]) else Keys(fs[1..]) + [k]
    requires Lookup(rest, k) == Defined(v)
    requires forall k' :: k' != k ==> Lookup(rest, k') == Lookup(fs[1..], k')
    requires forall i :: 0 <= i < |fs| - 1 && fs[1..][i].0 != k ==> rest[i] == fs[1..][i]
    requires UniqueKeys(fs[1..]) ==> UniqueKeys(rest)
    ensures var r := [fs[0]] + rest;
      && (Keys(r) == if k in Keys(fs) then Keys(fs) else Keys(fs) + [k])
      && Lookup(r, k) == Defined(v)
      && (forall k' :: k' != k ==> Lookup(r, k') == Lookup(fs, k'))
      && (forall i :: 0 <= i < |fs| && fs[i].0 != k ==> r[i] == fs[i])
      && (UniqueKeys(fs) ==> UniqueKeys(r))
  {
    var r := [fs[0]] + rest;
    PutConsKeys(fs, k, rest);
    LookupCons(fs[0], rest, k);
    PutConsLookups(fs, k, rest);
    PutConsPositions(fs, k, rest);
    UniqueCons(fs);
    UniqueCons(r);
  }

  lemma PutConsKeys(fs: seq<(string, Json)>, k: string, rest: seq<(string, Json)>)
    requires |fs| > 0 && fs[0].0 != k
    requires Keys(rest) == if k in Keys(fs[1..]) then Keys(fs[1..]) else Keys(fs[1..]) + [k]
    ensures Keys([fs[0]] + rest) == if k in Keys(fs) then Keys(fs) else Keys(fs) + [k]
  {
    var r := [fs[0]] + rest;
    assert r[1..] == rest;
    assert Keys(fs) == [fs[0].0] + Keys(fs[1..]);
    assert Keys(r) == [fs[0].0] + Keys(rest);
  }

  lemma PutConsLookups(fs: seq<(string, Json)>, k: string, rest: seq<(string, Json)>)
    requires |fs| > 0
    requires forall k' :: k' != k ==> Lookup(rest, k') == Lookup(fs[1..], k')
    ensures forall k' :: k' != k ==> Lookup([fs[0]] + rest, k') == Lookup(fs, k')
  {
    forall k' | k' != k
      ensures Lookup([fs[0]] + rest, k') == Lookup(fs, k')
    {
      LookupCons(fs[0], rest, k');
      LookupCons(fs[0], fs[1..], k');
      assert [fs[0]] + fs[1..] == fs;
    }
  }

  lemma PutConsPositions(fs: seq<(string, Json)>, k: string, rest: seq<(string, Json)>)
    requires |fs| > 0
    requires |rest| >= |fs| - 1
    requires forall i :: 0 <= i < |fs| - 1 && fs[1..][i].0 != k ==> rest[i] == fs[1..][i]
    ensures forall i :: 0 <= i < |fs| && fs[i].0 != k ==> ([fs[0]] + rest)[i] == fs[i]
  {
    forall i | 0 <= i < |fs| && fs[i].0 != k
      ensures ([fs[0]] + rest)[i] == fs[i]
    {
      if i > 0 {
        assert fs[1..][i - 1] == fs[i];
      }
    }
  }

  /** `delete o[k]` on an object. */
  function Remove(fs: seq<(string, Json)>, k: string): (r: seq<(string, Json)>)
    ensures Lookup(r, k) == Undefined
    ensures forall k' :: k' != k ==> Lookup(r, k') == Lookup(fs, k')
    ensures k !in Keys(fs) ==> r == fs
    ensures UniqueKeys(fs) ==> UniqueKeys(r)
    ensures UniqueKeys(fs) ==> forall i :: 0 <= i < |fs| && fs[i].0 == k ==> r == fs[..i] + fs[i + 1..]
  {
    if |fs| == 0 then []
    else
      assert Keys(fs) == [fs[0].0] + Keys(fs[1..]);
      var rest := Remove(fs[1..], k);
      if fs[0].0 == k then
        RemoveAbsent(fs, k, rest);
        rest
      else
        RemoveCons(fs, k, rest);
        [fs[0]] + rest
  }

  /** The step case of `Remove`: the head is kept in front of the tail
      with `k` removed. */
  lemma RemoveCons(fs: seq<(string, Json)>, k: string, rest: seq<(string, Json)>)
    requires |fs| > 0 && fs[0].0 != k
    requires Lookup(rest, k) == Undefined
    requires forall k' :: k' != k ==> Lookup(rest, k') == Lookup(fs[1..], k')
    requires k !in Keys(fs[1..]) ==> rest == fs[1..]
    requires UniqueKeys(fs[1..]) ==> UniqueKeys(rest)
    requires UniqueKeys(fs[1..]) ==> forall i :: 0 <= i < |fs| - 1 && fs[1..][i].0 == k ==> rest == fs[1..][..i] + fs[1..][i + 1..]
    ensures var r := [fs[0]] + rest;
      && Lookup(r, k) == Undefined
      && (forall k' :: k' != k ==> Lookup(r, k') == Lookup(fs, k'))
      && (k !in Keys(fs) ==> r == fs)
      && (UniqueKeys(fs) ==> UniqueKeys(r))
      && (UniqueKeys(fs) ==> forall i :: 0 <= i < |fs| && fs[i].0 == k ==> r == fs[..i] + fs[i + 1..])
  {
    var r := [fs[0]] + rest;
    assert r[1..] == rest;
    assert Keys(fs) == [fs[0].0] + Keys(fs[1..]);
    assert [fs[0]] + fs[1..] == fs;
    LookupCons(fs[0], rest, k);
    PutConsLookups(fs, k, rest);
    RemoveKeysShrink(fs[1..], k, rest);
    UniqueCons(fs);
    UniqueCons(r);
    RemoveSplice(fs, k, rest);
  }

  /** Facts about the first-key case of `Remove`, kept apart to keep its proof small. */
  lemma RemoveAbsent(fs: seq<(string, Json)>, k: string, rest: seq<(string, Json)>)
    requires |fs| > 0 && fs[0].0 == k
    requires Keys(fs) == [fs[0].0] + Keys(fs[1..])
    requires UniqueKeys(fs[1..]) ==> UniqueKeys(rest)
    requires k !in Keys(fs[1..]) ==> rest == fs[1..]
    ensures UniqueKeys(fs) ==> UniqueKeys(rest)
    ensures UniqueKeys(fs) ==> forall i :: 0 <= i < |fs| && fs[i].0 == k ==> rest == fs[..i] + fs[i + 1..]
  {
    if UniqueKeys(fs) {
      assert UniqueKeys(fs[1..]);
      forall j | 0 <= j < |fs| - 1
        ensures Keys(fs[1..])[j] != k
      {
        assert fs[j + 1].0 != fs[0].0;
      }
      forall i | 0 <= i < |fs| && fs[i].0 == k
        ensures rest == fs[..i] + fs[i + 1..]
      {
        assert i == 0;
      }
    }
  }

  lemma RemoveSplice(fs: seq<(string, Json)>, k: string, rest: seq<(string, Json)>)
    requires |fs| > 0 && fs[0].0 != k
    requires UniqueKeys(fs[1..]) ==> forall i :: 0 <= i < |fs| - 1 && fs[1..][i].0 == k ==> rest == fs[1..][..i] + fs[1..][i + 1..]
    ensures UniqueKeys(fs) ==> forall i :: 0 <= i < |fs| && fs[i].0 == k ==> [fs[0]] + rest == fs[..i] + fs[i + 1..]
  {
    if UniqueKeys(fs) {
      UniqueCons(fs);
      forall i | 0 <= i < |fs| && fs[i].0 == k
        ensures [fs[0]] + rest == fs[..i] + fs[i + 1..]
      {
        assert fs[1..][i - 1].0 == k;
        SpliceAt(fs, rest, i);
      }
    }
  }

  lemma SpliceAt(fs: seq<(string, Json)>, rest: seq<(string, Json)>, i: nat)
    requires 0 < i < |fs| && rest == fs[1..][..i - 1] + fs[1..][i..]
    ensures [fs[0]] + rest == fs[..i] + fs[i + 1..]
  {
    assert fs[..i] == [fs[0]] + fs[1..][..i - 1];
    assert fs[i + 1..] == fs[1..][i..];
  }

  /** With unique keys, deleting a key just assigned gives what deleting it
      in the first place gives: the assignment leaves no trace. */
  lemma RemovePut(fs: seq<(string, Json)>, k: string, v: Json)
    requires UniqueKeys(fs)
    ensures Remove(Put(fs, k, v), k) == Remove(fs, k)
  {
    if k in Keys(fs) {
      var i :| 0 <= i < |fs| && Keys(fs)[i] == k;
      RemovePutPresent(fs, k, v, i);
    } else {
      RemovePutAbsent(fs, k, v);
    }
  }

  lemma RemovePutPresent(fs: seq<(string, Json)>, k: string, v: Json, i: nat)
    requires UniqueKeys(fs) && i < |fs| && fs[i].0 == k
    ensures Remove(Put(fs, k, v), k) == Remove(fs, k)
  {
    var r := Put(fs, k, v);
    PutInPlace(fs, k, v, i);
    RemoveAt(r, k, i);
    RemoveAt(fs, k, i);
    OnlyAt(fs, k, i);
    SameAround(fs, r, i);
  }

  /** Assigning an existing key keeps its position. */
  lemma PutInPlace(fs: seq<(string, Json)>, k: string, v: Json, i: nat)
    requires UniqueKeys(fs) && i < |fs| && fs[i].0 == k
    ensures var r := Put(fs, k, v); |r| == |fs| && r[i].0 == k && UniqueKeys(r)
  {
    var r := Put(fs, k, v);
    assert Keys(r) == Keys(fs);
    assert Keys(r)[i] == k;
  }

  /** With unique keys, deleting a key splices out its one position. */
  lemma RemoveAt(fs: seq<(string, Json)>, k: string, i: nat)
    requires UniqueKeys(fs) && i < |fs| && fs[i].0 == k
    ensures Remove(fs, k) == fs[..i] + fs[i + 1..]
  {
  }

  /** With unique keys, a key occurs at one position only. */
  lemma OnlyAt(fs: seq<(string, Json)>, k: string, i: nat)
    requires UniqueKeys(fs) && i < |fs| && fs[i].0 == k
    ensures forall j :: 0 <= j < |fs| && j != i ==> fs[j].0 != k
  {
    forall j | 0 <= j < |fs| && j != i
      ensures fs[j].0 != k
    {
      if j < i {
        assert fs[j].0 != fs[i].0;
      } else {
        assert fs[i].0 != fs[j].0;
      }
    }
  }

  /** Two sequences that differ at most at position `i` agree once it is
      cut out. */
  lemma SameAround(fs: seq<(string, Json)>, r: seq<(string, Json)>, i: nat)
    requires |r| == |fs| && i < |fs|
    requires forall j :: 0 <= j < |fs| && fs[j].0 != fs[i].0 ==> r[j] == fs[j]
    requires forall j :: 0 <= j < |fs| && j != i ==> fs[j].0 != fs[i].0
    ensures r[..i] + r[i + 1..] == fs[..i] + fs[i + 1..]
  {
    assert r[..i] == fs[..i];
    assert r[i + 1..] == fs[i + 1..];
  }

  lemma RemovePutAbsent(fs: seq<(string, Json)>, k: string, v: Json)
    requires UniqueKeys(fs) && k !in Keys(fs)
    ensures Remove(Put(fs, k, v), k) == Remove(fs, k)
  {
    var n := |fs|;
    var r := fs + [(k, v)];
    PutAbsentAppends(fs, k, v);
    assert Remove(r, k) == fs by {
      assert UniqueKeys(r) && r[n].0 == k;
      SnocCut(fs, (k, v));
    }
  }

  /** Assigning a key that is not there appends it last. */
  lemma {:induction false} PutAbsentAppends(fs: seq<(string, Json)>, k: string, v: Json)
    requires k !in Keys(fs)
    ensures Put(fs, k, v) == fs + [(k, v)]
    decreases |fs|
  {
    if |fs| > 0 {
      var rest := fs[1..];
      assert Keys(fs)[0] == fs[0].0 && Keys(fs)[1..] == Keys(rest);
      assert Put(fs, k, v) == [fs[0]] + Put(rest, k, v);
      PutAbsentAppends(rest, k, v);
      ConsSnoc(fs, (k, v));
    }
  }

  lemma SnocCut<T>(s: seq<T>, y: T)
    ensures (s + [y])[..|s|] + (s + [y])[|s| + 1..] == s
  {
  }

  lemma ConsSnoc<T>(s: seq<T>, y: T)
    requires |s| > 0
    ensures [s[0]] + (s[1..] + [y]) == s + [y]
  {
  }

  /** Removing keeps only keys that were already there. */
  lemma RemoveKeysShrink(fs: seq<(string, Json)>, k: string, r: seq<(string, Json)>)
    requires forall k' :: k' != k ==> Lookup(r, k') == Lookup(fs, k')
    requires Lookup(r, k) == Undefined
    ensures forall k' :: k' in Keys(r) ==> k' in Keys(fs) && k' != k
  {
    forall k' | k' in Keys(r)
      ensures k' in Keys(fs) && k' != k
    {
      assert Lookup(r, k').Defined?;
    }
  }

  // ---------------------------------------------------------------------
  // JavaScript semantics of the operations the commands use

  /** JavaScript truthiness of a property read: `undefined`, `null`,
      `false`, `0` and `""` are falsy; every other value, including `[]`
      and `{}`, is truthy. */
  predicate Truthy(p: Prop) {
    match p
    case Undefined => false
    case Defined(v) =>
      match v
      case JNull => false
      case JBool(b) => b
      case JNum(n) => n != 0
      case JStr(s) => s != ""
      case _ => true
  }

  /** `a || b` on a property read. */
  function Or(p: Prop, alternative: Json): (r: Json)
    ensures Truthy(p) ==> Defined(r) == p
    ensures !Truthy(p) ==> r == alternative
  {
    if Truthy(p) then p.value else alternative
  }

  /** The array index a property name denotes: a canonical numeral below
      2^32 - 1. */
  function ArrayIndex(k: string): (r: Option<nat>)
    ensures r.Some? ==> r.value < 0xFFFF_FFFF && Decimal(r.value) == k
  {
    match ParseNumeral(k)
    case None => None
    case Some(i) =>
      DecimalOfParse(k);
      if i < 0xFFFF_FFFF then Some(i) else None
  }

  /** "0", "1", ..., the names of the first `n` indices. */
  function IndexNames(n: nat): (r: seq<string>)
    ensures |r| == n
    ensures forall i :: 0 <= i < n ==> r[i] == Decimal(i)
  {
    seq(n, i requires 0 <= i < n => Decimal(i))
  }

  /** `v[k]` for a value that is not `null`: own properties of objects, and
      the index properties of arrays and strings; every other name reads as
      `undefined`. */
  function GetProp(v: Json, k: string): (p: Prop)
    ensures v.JObj? ==> p == Lookup(v.fields, k)
    ensures v.JNull? || v.JBool? || v.JNum? ==> p == Undefined
  {
    match v
    case JObj(fs) => Lookup(fs, k)
    case JArr(xs) =>
      (match ArrayIndex(k)
       case Some(i) => if i < |xs| then Defined(xs[i]) else Undefined
       case None => Undefined)
    case JStr(s) =>
      (match ArrayIndex(k)
       case Some(i) => if i < |s| then Defined(JStr([s[i]])) else Undefined
       case None => Undefined)
    case _ => Undefined
  }

  /** The member expression `p.k`: it throws when `p` is `undefined` or
      `null`. */
  function Member(p: Prop, k: string): (r: Completion<Prop>)
    ensures r.Throw? <==> p.Undefined? || p.value.JNull?
    ensures r.Normal? ==> r.value == GetProp(p.value, k)
  {
    if p.Undefined? || p.value.JNull? then Throw else Normal(GetProp(p.value, k))
  }

  /** `null` entries `n` long: the holes an assignment past an array's end
      leaves, which `JSON.stringify` writes as `null`. */
  function Holes(n: nat): (r: seq<Json>)
    ensures |r| == n && forall i :: 0 <= i < n ==> r[i] == JNull
  {
    seq(n, _ => JNull)
  }

  /** `v[k] = x` followed by serialisation: the value `JSON.stringify`
      would write for `v` afterwards. Assigning to a primitive throws
      (class bodies are strict-mode code); a non-index name assigned on an
      array becomes an expando property, which serialisation drops. */
  function SetProp(v: Json, k: string, x: Json): (r: Completion<Json>)
    ensures v.JObj? ==> r == Normal(JObj(Put(v.fields, k, x)))
    ensures r.Throw? <==> !v.JObj? && !v.JArr?
    ensures v.JArr? && ArrayIndex(k).None? ==> r == Normal(v)
  {
    match v
    case JObj(fs) => Normal(JObj(Put(fs, k, x)))
    case JArr(xs) =>
      (match ArrayIndex(k)
       case Some(i) =>
         if i < |xs| then Normal(JArr(xs[i := x])) else Normal(JArr(xs + Holes(i - |xs|) + [x]))
       case None => Normal(v))
    case _ => Throw
  }

  /** `delete v[k]` followed by serialisation. Deleting an index of a
      string throws (its characters are not configurable); deleting an
      array element leaves a hole, written as `null`. */
  function DeleteProp(v: Json, k: string): (r: Completion<Json>)
    ensures v.JObj? ==> r == Normal(JObj(Remove(v.fields, k)))
    ensures v.JNull? ==> r.Throw?
    ensures v.JArr? ==> r.Normal? && r.value.JArr? && |r.value.items| == |v.items|
  {
    match v
    case JObj(fs) => Normal(JObj(Remove(fs, k)))
    case JArr(xs) =>
      (match ArrayIndex(k)
       case Some(i) => if i < |xs| then Normal(JArr(xs[i := JNull])) else Normal(v)
       case None => Normal(v))
    case JStr(s) =>
      (match ArrayIndex(k)
       case Some(i) => if i < |s| then Throw else Normal(v)
       case None => Normal(v))
    case JNull => Throw
    case _ => Normal(v)
  }

  /** `Object.keys(v)` for a value that is not `null`. */
  function OwnKeys(v: Json): (ks: seq<string>)
    ensures v.JObj? ==> ks == Keys(v.fields)
    ensures v.JNull? || v.JBool? || v.JNum? ==> ks == []
  {
    match v
    case JObj(fs) => Keys(fs)
    case JArr(xs) => IndexNames(|xs|)
    case JStr(s) => IndexNames(|s|)
    case _ => []
  }

  /** A JSON array of strings. */
  function StrArray(ss: seq<string>): (r: Json)
    ensures r.JArr? && |r.items| == |ss|
    ensures forall i :: 0 <= i < |ss| ==> r.items[i] == JStr(ss[i])
  {
    JArr(seq(|ss|, i requires 0 <= i < |ss| => JStr(ss[i])))
  }

  lemma StrArrayInjective(a: seq<string>, b: seq<string>)
    requires StrArray(a) == StrArray(b)
    ensures a == b
  {
    assert |a| == |StrArray(a).items| == |b|;
    forall i | 0 <= i < |a|
      ensures a[i] == b[i]
    {
      assert StrArray(a).items[i] == JStr(a[i]);
    }
  }

  /** The first `|a|` elements of the array for `a + b` are the array for `a`. */
  lemma StrArrayPrefix(a: seq<string>, b: seq<string>)
    ensures StrArray(a + b).items[..|a|] == StrArray(a).items
  {
  }
}
