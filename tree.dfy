/**
 * The nested ordered map that the converter builds: PHP arrays with string
 * keys, whose leaves are strings, integers or floats. A map keeps its keys in
 * insertion order; assigning to an existing key keeps that key's position.
 */
module Tree {
  import opened Wrappers

  datatype Node =
    | Str(s: string)
    | Int(i: int)
    /** A PHP float, kept as the numeric text it was converted from. */
    | Float(text: string)
    | Map(entries: seq<Entry>)

  datatype Entry = Entry(key: string, value: Node)

  function Keys(es: seq<Entry>): (ks: seq<string>)
    ensures |ks| == |es|
  {
    if es == [] then [] else [es[0].key] + Keys(es[1..])
  }

  predicate Distinct(ks: seq<string>)
  {
    forall i, j :: 0 <= i < j < |ks| ==> ks[i] != ks[j]
  }

  /** Every map in the tree has pairwise different keys. */
  predicate WellFormed(n: Node)
    decreases n
  {
    match n
    case Map(es) => WellFormedEntries(es)
    case _ => true
  }

  predicate WellFormedEntries(es: seq<Entry>)
    decreases es
  {
    Distinct(Keys(es)) && forall i :: 0 <= i < |es| ==> WellFormed(es[i].value)
  }

  /** $map[$k] when isset($map[$k]). */
  function Lookup(es: seq<Entry>, k: string): (r: Option<Node>)
    ensures r.Some? <==> k in Keys(es)
    ensures r.Some? ==> Entry(k, r.value) in es
  {
    if es == [] then None
    else if es[0].key == k then Some(es[0].value)
    else Lookup(es[1..], k)
  }

  /**
   * $map[$k] = $v: an existing key keeps its position and takes the new
   * value, a new key is appended; every other key keeps its value.
   */
  function Put(es: seq<Entry>, k: string, v: Node): (r: seq<Entry>)
    ensures Lookup(r, k) == Some(v)
    ensures forall k' :: k' != k ==> Lookup(r, k') == Lookup(es, k')
  {
    if es == [] then [Entry(k, v)]
    else if es[0].key == k then
      var r := [Entry(k, v)] + es[1..];
      assert r[1..] == es[1..];
      r
    else
      var r := [es[0]] + Put(es[1..], k, v);
      assert r[0] == es[0] && r[1..] == Put(es[1..], k, v);
      r
  }

  /** Put keeps the order of the keys and appends a new key at the end. */
  lemma {:induction false} KeysAt(es: seq<Entry>, i: nat)
    requires i < |es|
    ensures Keys(es)[i] == es[i].key
  {
    if i > 0 {
      KeysAt(es[1..], i - 1);
    }
  }

  lemma {:induction false} PutKeys(es: seq<Entry>, k: string, v: Node)
    ensures Keys(Put(es, k, v)) == if k in Keys(es) then Keys(es) else Keys(es) + [k]
  {
    if es != [] && es[0].key != k {
      PutKeys(es[1..], k, v);
      var r := Put(es, k, v);
      assert r[1..] == Put(es[1..], k, v);
      assert Keys(es) == [es[0].key] + Keys(es[1..]);
      assert Keys(r) == [es[0].key] + Keys(r[1..]);
    } else if es != [] {
      assert Put(es, k, v)[1..] == es[1..];
    }
  }

  /** Put introduces no entry other than the one it stores. */
  lemma {:induction false} PutEntries(es: seq<Entry>, k: string, v: Node)
    ensures forall e :: e in Put(es, k, v) ==> e in es || e == Entry(k, v)
  {
    if es != [] && es[0].key != k {
      PutEntries(es[1..], k, v);
      var r := Put(es, k, v);
      assert r == [es[0]] + Put(es[1..], k, v);
    } else if es != [] {
      assert Put(es, k, v) == [Entry(k, v)] + es[1..];
    }
  }

  lemma {:induction false} PutAppends(es: seq<Entry>, k: string, v: Node)
    requires k !in Keys(es)
    ensures Put(es, k, v) == es + [Entry(k, v)]
  {
    if es != [] {
      assert Keys(es) == [es[0].key] + Keys(es[1..]);
      PutAppends(es[1..], k, v);
      ConsSnoc(es, Entry(k, v));
    }
  }

  lemma ConsSnoc(es: seq<Entry>, e: Entry)
    requires es != []
    ensures es + [e] == [es[0]] + (es[1..] + [e])
  {
    assert es == [es[0]] + es[1..];
  }

  lemma {:induction false} PutPut(es: seq<Entry>, k: string, v: Node, w: Node)
    ensures Put(Put(es, k, v), k, w) == Put(es, k, w)
  {
    if es != [] && es[0].key != k {
      PutPut(es[1..], k, v, w);
      assert Put(es, k, v)[1..] == Put(es[1..], k, v);
    }
  }

  lemma PutDistinct(es: seq<Entry>, k: string, v: Node)
    requires Distinct(Keys(es))
    ensures Distinct(Keys(Put(es, k, v)))
  {
    PutKeys(es, k, v);
    var ks := Keys(es);
    if k !in ks {
      var ks' := ks + [k];
      forall i, j | 0 <= i < j < |ks'| ensures ks'[i] != ks'[j] {
        if j == |ks| { assert ks[i] in ks; }
      }
    }
  }

  lemma {:induction false} PutWellFormed(es: seq<Entry>, k: string, v: Node)
    requires WellFormedEntries(es) && WellFormed(v)
    ensures WellFormedEntries(Put(es, k, v))
  {
    PutDistinct(es, k, v);
    PutEntries(es, k, v);
    var r := Put(es, k, v);
    forall i | 0 <= i < |r| ensures WellFormed(r[i].value) {
      assert r[i] in r;
      if r[i] != Entry(k, v) {
        var j :| 0 <= j < |es| && es[j] == r[i];
      }
    }
  }

  /** The node reached from n by following the keys of path, if every step exists. */
  function At(n: Node, path: seq<string>): (r: Option<Node>)
    ensures path == [] ==> r == Some(n)
    ensures path != [] && r.Some? ==> n.Map? && Lookup(n.entries, path[0]).Some?
    decreases |path|
  {
    if path == [] then Some(n)
    else match n
      case Map(es) =>
        (match Lookup(es, path[0])
         case Some(c) => At(c, path[1..])
         case None => None)
      case _ => None
  }

  /** The path leads, from the root map es, to a map. */
  predicate MapAt(es: seq<Entry>, path: seq<string>)
  {
    At(Map(es), path).Some? && At(Map(es), path).value.Map?
  }

  /** The entries of the map at path. */
  function Sub(es: seq<Entry>, path: seq<string>): seq<Entry>
    requires MapAt(es, path)
  {
    At(Map(es), path).value.entries
  }

  lemma {:induction false} AtAppend(n: Node, p: seq<string>, q: seq<string>)
    ensures At(n, p + q) == if At(n, p).Some? then At(At(n, p).value, q) else None
    decreases |p|
  {
    if p == [] {
      assert p + q == q;
    } else if n.Map? && Lookup(n.entries, p[0]).Some? {
      assert (p + q)[0] == p[0] && (p + q)[1..] == p[1..] + q;
      AtAppend(Lookup(n.entries, p[0]).value, p[1..], q);
    }
  }

  /** Every prefix of a path to a map leads to a map. */
  lemma MapAtPrefix(es: seq<Entry>, p: seq<string>, i: nat)
    requires MapAt(es, p) && i <= |p|
    ensures MapAt(es, p[..i])
  {
    assert p == p[..i] + p[i..];
    AtAppend(Map(es), p[..i], p[i..]);
  }

  /** Stepping one key down from a map to a child that is a map. */
  lemma MapAtChild(es: seq<Entry>, p: seq<string>, k: string)
    requires MapAt(es, p)
    ensures MapAt(es, p + [k]) <==> Lookup(Sub(es, p), k).Some? && Lookup(Sub(es, p), k).value.Map?
    ensures MapAt(es, p + [k]) ==> Sub(es, p + [k]) == Lookup(Sub(es, p), k).value.entries
  {
    AtAppend(Map(es), p, [k]);
  }

  lemma {:induction false} SubWellFormed(es: seq<Entry>, p: seq<string>)
    requires WellFormedEntries(es) && MapAt(es, p)
    ensures WellFormedEntries(Sub(es, p))
    decreases |p|
  {
    if p != [] {
      var c := Lookup(es, p[0]).value;
      assert Entry(p[0], c) in es;
      assert WellFormed(c);
      assert c.Map?;
      SubWellFormed(c.entries, p[1..]);
    }
  }

  /**
   * The root map after the map at path has been given the entries m. This is
   * what an assignment through a PHP reference to a nested array does to the
   * array that owns it.
   */
  function Replace(es: seq<Entry>, path: seq<string>, m: seq<Entry>): (r: seq<Entry>)
    requires MapAt(es, path)
    ensures MapAt(r, path) && Sub(r, path) == m
    decreases |path|
  {
    if path == [] then m
    else
      var child := Lookup(es, path[0]).value.entries;
      var r := Put(es, path[0], Map(Replace(child, path[1..], m)));
      assert At(Map(r), path) == At(Map(Replace(child, path[1..], m)), path[1..]);
      r
  }

  lemma {:induction false} ReplaceReplace(es: seq<Entry>, p: seq<string>, m1: seq<Entry>, m2: seq<Entry>)
    requires MapAt(es, p)
    ensures Replace(Replace(es, p, m1), p, m2) == Replace(es, p, m2)
    decreases |p|
  {
    if p != [] {
      var child := Lookup(es, p[0]).value.entries;
      ReplaceReplace(child, p[1..], m1, m2);
      PutPut(es, p[0], Map(Replace(child, p[1..], m1)), Map(Replace(child, p[1..], m2)));
    }
  }

  /** Giving new entries to a child map is giving its parent a new value at the child's key. */
  lemma {:induction false} ReplaceChild(es: seq<Entry>, p: seq<string>, k: string, m: seq<Entry>)
    requires MapAt(es, p + [k])
    ensures MapAt(es, p)
    ensures Replace(es, p + [k], m) == Replace(es, p, Put(Sub(es, p), k, Map(m)))
    decreases |p|
  {
    MapAtPrefix(es, p + [k], |p|);
    assert (p + [k])[..|p|] == p;
    if p == [] {
      assert p + [k] == [k];
    } else {
      var child := Lookup(es, p[0]).value.entries;
      assert (p + [k])[0] == p[0] && (p + [k])[1..] == p[1..] + [k];
      ReplaceChild(child, p[1..], k, m);
    }
  }

  lemma {:induction false} ReplaceWellFormed(es: seq<Entry>, p: seq<string>, m: seq<Entry>)
    requires WellFormedEntries(es) && MapAt(es, p) && WellFormedEntries(m)
    ensures WellFormedEntries(Replace(es, p, m))
    decreases |p|
  {
    if p != [] {
      var c := Lookup(es, p[0]).value;
      assert Entry(p[0], c) in es;
      ReplaceWellFormed(c.entries, p[1..], m);
      PutWellFormed(es, p[0], Map(Replace(c.entries, p[1..], m)));
    }
  }

  /**
   * Replacing the map at p changes nothing off the path to p, and below p
   * the tree is the new map.
   */
  lemma {:induction false} AtReplace(es: seq<Entry>, p: seq<string>, m: seq<Entry>, q: seq<string>)
    requires MapAt(es, p)
    ensures !(q <= p) && !(p <= q) ==> At(Map(Replace(es, p, m)), q) == At(Map(es), q)
    ensures p <= q ==> At(Map(Replace(es, p, m)), q) == At(Map(m), q[|p|..])
    decreases |p|
  {
    if p != [] && q != [] {
      var c := Lookup(es, p[0]).value.entries;
      var r := Replace(es, p, m);
      if q[0] == p[0] {
        AtReplace(c, p[1..], m, q[1..]);
        assert q[1..] <= p[1..] ==> q <= p;
        assert p[1..] <= q[1..] ==> p <= q;
        assert p <= q ==> q[|p|..] == q[1..][|p| - 1..];
      }
    }
  }

  /**
   * Storing v under key k of the map at p changes no node off the path to
   * p + [k]; below p + [k] the tree is v.
   */
  lemma AtAfterPut(es: seq<Entry>, p: seq<string>, k: string, v: Node, q: seq<string>)
    requires MapAt(es, p)
    ensures var r := Replace(es, p, Put(Sub(es, p), k, v));
      (!(q <= p) && !(p + [k] <= q) ==> At(Map(r), q) == At(Map(es), q)) &&
      (p + [k] <= q ==> At(Map(r), q) == At(v, q[|p| + 1..]))
  {
    var m := Put(Sub(es, p), k, v);
    var r := Replace(es, p, m);
    AtReplace(es, p, m, q);
    if p <= q && q != p {
      var k' := q[|p|];
      var u := q[|p| + 1..];
      assert q[|p|..] == [k'] + u;
      AtPutChild(Sub(es, p), k, v, k', u);
      if k' != k {
        assert q == p + ([k'] + u);
        AtAppend(Map(es), p, [k'] + u);
      } else {
        assert p + [k] <= q;
      }
    }
  }

  /** Below a map that took k := v, paths through k lead into v and the others are as before. */
  lemma AtPutChild(es: seq<Entry>, k: string, v: Node, k': string, u: seq<string>)
    ensures At(Map(Put(es, k, v)), [k'] + u) == if k' == k then At(v, u) else At(Map(es), [k'] + u)
  {
    assert ([k'] + u)[0] == k' && ([k'] + u)[1..] == u;
  }

  /** AtAfterPut for every path at once. */
  lemma PutOffPath(es: seq<Entry>, p: seq<string>, k: string, v: Node)
    requires MapAt(es, p)
    ensures forall q :: !(q <= p) && !(p + [k] <= q) ==>
      At(Map(Replace(es, p, Put(Sub(es, p), k, v))), q) == At(Map(es), q)
    ensures forall q :: p + [k] <= q ==>
      At(Map(Replace(es, p, Put(Sub(es, p), k, v))), q) == At(v, q[|p| + 1..])
  {
    forall q {
      AtAfterPut(es, p, k, v, q);
    }
  }

  /** Storing the value a key already has changes nothing. */
  lemma {:induction false} PutLookup(es: seq<Entry>, k: string, v: Node)
    requires Lookup(es, k) == Some(v)
    ensures Put(es, k, v) == es
  {
    if es[0].key == k {
      assert es == [Entry(k, v)] + es[1..];
    } else {
      PutLookup(es[1..], k, v);
    }
  }

  /** Putting back the map found at a path changes nothing. */
  lemma {:induction false} ReplaceSub(es: seq<Entry>, p: seq<string>)
    requires MapAt(es, p)
    ensures Replace(es, p, Sub(es, p)) == es
    decreases |p|
  {
    if p != [] {
      var child := Lookup(es, p[0]).value.entries;
      assert At(Map(es), p) == At(Map(child), p[1..]);
      ReplaceSub(child, p[1..]);
      PutLookup(es, p[0], Map(child));
    }
  }

  lemma {:induction false} KeysConcat(a: seq<Entry>, b: seq<Entry>)
    ensures Keys(a + b) == Keys(a) + Keys(b)
    decreases |a|
  {
    if a == [] {
      assert a + b == b;
    } else {
      assert (a + b)[0] == a[0] && (a + b)[1..] == a[1..] + b;
      KeysConcat(a[1..], b);
    }
  }

  /** Filling a child map just appended under a new key k is appending k with the filled map. */
  lemma ReplaceNewChild(es: seq<Entry>, p: seq<string>, k: string, m: seq<Entry>)
    requires MapAt(es, p) && k !in Keys(Sub(es, p))
    ensures var es1 := Replace(es, p, Sub(es, p) + [Entry(k, Map([]))]);
      MapAt(es1, p + [k]) && Sub(es1, p + [k]) == [] &&
      Replace(es1, p + [k], m) == Replace(es, p, Sub(es, p) + [Entry(k, Map(m))])
  {
    var here := Sub(es, p);
    var es1 := Replace(es, p, here + [Entry(k, Map([]))]);
    PutAppends(here, k, Map([]));
    PutAppends(here, k, Map(m));
    MapAtChild(es1, p, k);
    ReplaceChild(es1, p, k, m);
    PutPut(here, k, Map([]), Map(m));
    ReplaceReplace(es, p, here + [Entry(k, Map([]))], here + [Entry(k, Map(m))]);
  }

  lemma AppendFirst(here: seq<Entry>, es: seq<Entry>)
    requires es != []
    ensures here + [es[0]] + es[1..] == here + es
  {
    assert es == [es[0]] + es[1..];
  }
}
