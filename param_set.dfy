/**
  * The parameter list behind each SortedList<string, string> of VnPayLibrary:
  * entries kept in strictly ascending key order under VnPayCompare, so keys are
  * unique, and the canonical "k1=v1&k2=v2&..." string that both sides sign.
  */
module ParamSet {
  import opened Wrappers
  import opened Ordinal
  import opened UrlEncoding

  datatype Entry = Entry(key: string, value: string)

  /** Keys strictly ascending under VnPayCompare, hence unique. */
  ghost predicate Sorted(e: seq<Entry>) {
    forall i, j {:trigger Less(e[i].key, e[j].key)} :: 0 <= i < j < |e| ==> Less(e[i].key, e[j].key)
  }

  /** The invariant kept by the Add methods: no stored value is empty. */
  ghost predicate NoEmptyValues(e: seq<Entry>) {
    forall i :: 0 <= i < |e| ==> e[i].value != ""
  }

  /** The dictionary an entry list stands for (a later entry wins). */
  function ToMap(e: seq<Entry>): (m: map<string, string>) {
    if e == [] then map[] else ToMap(e[..|e| - 1])[e[|e| - 1].key := e[|e| - 1].value]
  }

  /** TryGetValue, with "" for a missing key (VnPayLibrary.GetResponseData). */
  function GetOrEmpty(m: map<string, string>, key: string): (v: string) {
    if key in m then m[key] else ""
  }

  /** The dictionary's keys are exactly the keys of the list's entries. */
  lemma {:induction false} ToMapKeys(e: seq<Entry>)
    ensures forall k :: k in ToMap(e) <==> exists i :: 0 <= i < |e| && e[i].key == k
  {
    if e != [] {
      var p := e[..|e| - 1];
      ToMapKeys(p);
      forall k | k in ToMap(e) ensures exists i :: 0 <= i < |e| && e[i].key == k {
        if k != e[|e| - 1].key {
          assert k in ToMap(p);
          var i :| 0 <= i < |p| && p[i].key == k;
          assert e[i] == p[i];
        }
      }
      forall k | exists i :: 0 <= i < |e| && e[i].key == k ensures k in ToMap(e) {
        var i :| 0 <= i < |e| && e[i].key == k;
        if i < |p| {
          assert p[i] == e[i];
        }
      }
    }
  }

  lemma ToMapEmpty(e: seq<Entry>)
    ensures ToMap(e) == map[] <==> e == []
  {
    if e != [] {
      assert e[|e| - 1].key in ToMap(e);
    }
  }

  /** Every entry of a sorted list is what its map holds for its key. */
  lemma {:induction false} ToMapAt(e: seq<Entry>, i: nat)
    requires Sorted(e) && i < |e|
    ensures e[i].key in ToMap(e) && ToMap(e)[e[i].key] == e[i].value
  {
    if i < |e| - 1 {
      var p := e[..|e| - 1];
      ToMapAt(p, i);
      LessAsymmetric(e[i].key, e[|e| - 1].key);
    }
  }

  /** Every key of `e` is below `b`. */
  ghost predicate AllBelow(e: seq<Entry>, b: string) {
    forall i :: 0 <= i < |e| ==> Less(e[i].key, b)
  }

  lemma SortedSnoc(q: seq<Entry>, x: Entry)
    requires Sorted(q) && AllBelow(q, x.key)
    ensures Sorted(q + [x])
  {
    forall i, j | 0 <= i < j < |q + [x]| ensures Less((q + [x])[i].key, (q + [x])[j].key) {
      if j == |q| { assert (q + [x])[i] == q[i]; }
    }
  }

  /** In a sorted list the last key is above every other key. */
  lemma SortedPrefix(e: seq<Entry>)
    requires Sorted(e) && e != []
    ensures Sorted(e[..|e| - 1]) && AllBelow(e[..|e| - 1], e[|e| - 1].key)
  {
    var p := e[..|e| - 1];
    forall i, j | 0 <= i < j < |p| ensures Less(p[i].key, p[j].key) {
      assert Less(e[i].key, e[j].key);
    }
    forall i | 0 <= i < |p| ensures Less(p[i].key, e[|e| - 1].key) {
      assert Less(e[i].key, e[|e| - 1].key);
    }
  }

  lemma BelowLast(e: seq<Entry>, k: string)
    requires Sorted(e) && e != [] && Less(e[|e| - 1].key, k)
    ensures AllBelow(e, k)
  {
    forall i | 0 <= i < |e| ensures Less(e[i].key, k) {
      if i < |e| - 1 {
        assert Less(e[i].key, e[|e| - 1].key);
        LessTransitive(e[i].key, e[|e| - 1].key, k);
      }
    }
  }

  lemma LastNotInPrefix(e: seq<Entry>)
    requires Sorted(e) && e != []
    ensures e[|e| - 1].key !in ToMap(e[..|e| - 1])
  {
    var p := e[..|e| - 1];
    ToMapKeys(p);
    forall i | 0 <= i < |p| ensures p[i].key != e[|e| - 1].key {
      assert Less(e[i].key, e[|e| - 1].key);
    }
  }

  /**
    * SortedList.Add for a key not yet present: the entry goes in at its place
    * in key order.
    */
  function InsertSorted(e: seq<Entry>, k: string, v: string): (r: seq<Entry>)
    ensures |r| == |e| + 1
  {
    if e == [] then [Entry(k, v)]
    else
      var p, last := e[..|e| - 1], e[|e| - 1];
      if Less(last.key, k) then e + [Entry(k, v)]
      else InsertSorted(p, k, v) + [last]
  }

  lemma {:induction false} InsertSortedBelow(e: seq<Entry>, k: string, v: string, b: string)
    requires AllBelow(e, b) && Less(k, b)
    ensures AllBelow(InsertSorted(e, k, v), b)
  {
    if e != [] {
      var p := e[..|e| - 1];
      var r := InsertSorted(e, k, v);
      if !Less(e[|e| - 1].key, k) {
        assert AllBelow(p, b) by {
          forall i | 0 <= i < |p| ensures Less(p[i].key, b) { assert p[i] == e[i]; }
        }
        InsertSortedBelow(p, k, v, b);
        forall i | 0 <= i < |r| ensures Less(r[i].key, b) {
          if i == |r| - 1 { assert r[i] == e[|e| - 1]; } else { assert r[i] == InsertSorted(p, k, v)[i]; }
        }
      } else {
        forall i | 0 <= i < |r| ensures Less(r[i].key, b) {
          if i < |e| { assert r[i] == e[i]; }
        }
      }
    }
  }

  /** Inserting a key not yet present adds exactly that key to the map. */
  lemma {:induction false} InsertSortedMap(e: seq<Entry>, k: string, v: string)
    requires k !in ToMap(e)
    ensures ToMap(InsertSorted(e, k, v)) == ToMap(e)[k := v]
  {
    if e != [] {
      var p, last := e[..|e| - 1], e[|e| - 1];
      if Less(last.key, k) {
        assert (e + [Entry(k, v)])[..|e|] == e;
      } else {
        var q := InsertSorted(p, k, v);
        InsertSortedMap(p, k, v);
        assert (q + [last])[..|q|] == q;
        assert k != last.key;
      }
    }
  }

  /** Inserting a key not yet present keeps the list sorted. */
  lemma {:induction false} InsertSortedSorted(e: seq<Entry>, k: string, v: string)
    requires Sorted(e) && k !in ToMap(e)
    ensures Sorted(InsertSorted(e, k, v))
  {
    if e != [] {
      var p, last := e[..|e| - 1], e[|e| - 1];
      if Less(last.key, k) {
        BelowLast(e, k);
        SortedSnoc(e, Entry(k, v));
      } else {
        SortedPrefix(e);
        InsertSortedSorted(p, k, v);
        LessTotal(k, last.key);
        InsertSortedBelow(p, k, v, last.key);
        SortedSnoc(InsertSorted(p, k, v), last);
      }
    }
  }

  lemma InsertSortedCorrect(e: seq<Entry>, k: string, v: string)
    requires Sorted(e) && k !in ToMap(e)
    ensures Sorted(InsertSorted(e, k, v))
    ensures ToMap(InsertSorted(e, k, v)) == ToMap(e)[k := v]
  {
    InsertSortedMap(e, k, v);
    InsertSortedSorted(e, k, v);
  }

  /** A non-empty value keeps every stored value non-empty. */
  lemma {:induction false} InsertSortedValues(e: seq<Entry>, k: string, v: string)
    requires NoEmptyValues(e) && v != ""
    ensures NoEmptyValues(InsertSorted(e, k, v))
  {
    if e != [] {
      var p := e[..|e| - 1];
      var r := InsertSorted(e, k, v);
      if !Less(e[|e| - 1].key, k) {
        InsertSortedValues(p, k, v);
        forall i | 0 <= i < |r| ensures r[i].value != "" {
          if i < |r| - 1 { assert r[i] == InsertSorted(p, k, v)[i]; }
        }
      } else {
        forall i | 0 <= i < |r| ensures r[i].value != "" {
          if i < |e| { assert r[i] == e[i]; }
        }
      }
    }
  }

  /** SortedList.Remove: drop the entry with key `k`, if any. */
  function RemoveKey(e: seq<Entry>, k: string): (r: seq<Entry>)
    ensures |r| <= |e|
  {
    if e == [] then []
    else
      var p, last := e[..|e| - 1], e[|e| - 1];
      var q := RemoveKey(p, k);
      if last.key == k then q else q + [last]
  }

  /** Removing drops exactly the key from the map. */
  lemma {:induction false} RemoveKeyMap(e: seq<Entry>, k: string)
    ensures ToMap(RemoveKey(e, k)) == ToMap(e) - {k}
  {
    if e != [] {
      var p, last := e[..|e| - 1], e[|e| - 1];
      var q, m := RemoveKey(p, k), ToMap(p);
      RemoveKeyMap(p, k);
      if last.key != k {
        assert (q + [last])[..|q|] == q;
        assert (m - {k})[last.key := last.value] == m[last.key := last.value] - {k};
      } else {
        assert m - {k} == m[k := last.value] - {k};
      }
    }
  }

  lemma {:induction false} RemoveKeyBelow(e: seq<Entry>, k: string, b: string)
    requires AllBelow(e, b)
    ensures AllBelow(RemoveKey(e, k), b)
  {
    if e != [] {
      var p := e[..|e| - 1];
      var q, r := RemoveKey(p, k), RemoveKey(e, k);
      assert AllBelow(p, b) by {
        forall i | 0 <= i < |p| ensures Less(p[i].key, b) { assert p[i] == e[i]; }
      }
      RemoveKeyBelow(p, k, b);
      forall i | 0 <= i < |r| ensures Less(r[i].key, b) {
        if i < |q| { assert r[i] == q[i]; } else { assert r[i] == e[|e| - 1]; }
      }
    }
  }

  /** Removing keeps the list sorted. */
  lemma {:induction false} RemoveKeySorted(e: seq<Entry>, k: string)
    requires Sorted(e)
    ensures Sorted(RemoveKey(e, k))
  {
    if e != [] {
      var p, last := e[..|e| - 1], e[|e| - 1];
      var q := RemoveKey(p, k);
      SortedPrefix(e);
      RemoveKeySorted(p, k);
      if last.key != k {
        RemoveKeyBelow(p, k, last.key);
        SortedSnoc(q, last);
      }
    }
  }

  lemma {:induction false} RemoveKeyValues(e: seq<Entry>, k: string)
    requires NoEmptyValues(e)
    ensures NoEmptyValues(RemoveKey(e, k))
  {
    if e != [] {
      var p := e[..|e| - 1];
      var q, r := RemoveKey(p, k), RemoveKey(e, k);
      RemoveKeyValues(p, k);
      forall i | 0 <= i < |r| ensures r[i].value != "" {
        if i < |q| { assert r[i] == q[i]; }
      }
    }
  }

  /** One "encode(key)=encode(value)" pair. */
  function Pair(x: Entry): (p: string) {
    UrlEncode(x.key) + "=" + UrlEncode(x.value)
  }

  /** The canonical string: the pairs in list order, joined by '&'. */
  function Join(e: seq<Entry>): (s: string) {
    if e == [] then ""
    else if |e| == 1 then Pair(e[0])
    else Join(e[..|e| - 1]) + "&" + Pair(e[|e| - 1])
  }

  /** Every pair holds an '=', so only the empty list joins to the empty string. */
  lemma JoinEmpty(e: seq<Entry>)
    ensures Join(e) == "" <==> e == []
  {
    if e != [] {
      assert |Pair(e[|e| - 1])| > 0;
    }
  }

  /** A string cut at the first occurrence of c is cut in one way only. */
  lemma SplitAtFirst(x1: string, y1: string, x2: string, y2: string, c: char)
    requires c !in x1 && c !in x2
    requires x1 + [c] + y1 == x2 + [c] + y2
    ensures x1 == x2 && y1 == y2
  {
    var s := x1 + [c] + y1;
    assert s[|x1|] == c && s[|x2|] == c;
    assert |x1| == |x2|;
    assert x1 == s[..|x1|] && x2 == s[..|x2|];
    assert y1 == s[|x1| + 1..] && y2 == s[|x2| + 1..];
  }

  /** A string cut at the last occurrence of c is cut in one way only. */
  lemma SplitAtLast(x1: string, y1: string, x2: string, y2: string, c: char)
    requires c !in y1 && c !in y2
    requires x1 + [c] + y1 == x2 + [c] + y2
    ensures x1 == x2 && y1 == y2
  {
    var s := x1 + [c] + y1;
    assert s[|x1|] == c && s[|x2|] == c;
    assert |x1| == |x2|;
    assert x1 == s[..|x1|] && x2 == s[..|x2|];
    assert y1 == s[|x1| + 1..] && y2 == s[|x2| + 1..];
  }

  /** The '=' of a pair is its first, so a pair gives back its key and its value. */
  lemma PairInjective(x1: Entry, x2: Entry)
    ensures Pair(x1) == Pair(x2) ==> x1 == x2
  {
    if Pair(x1) == Pair(x2) {
      UrlEncodeNoSeparators(x1.key);
      UrlEncodeNoSeparators(x2.key);
      SplitAtFirst(UrlEncode(x1.key), UrlEncode(x1.value), UrlEncode(x2.key), UrlEncode(x2.value), '=');
      UrlEncodeInjective(x1.key, x2.key);
      UrlEncodeInjective(x1.value, x2.value);
    }
  }

  lemma PairHasNoAmpersand(x: Entry)
    ensures '&' !in Pair(x)
  {
    UrlEncodeNoSeparators(x.key);
    UrlEncodeNoSeparators(x.value);
  }

  /** The canonical string holds an '&' exactly when it joins two pairs or more. */
  lemma JoinSeparators(e: seq<Entry>)
    ensures '&' in Join(e) <==> |e| > 1
  {
    if |e| == 1 {
      PairHasNoAmpersand(e[0]);
    } else if |e| > 1 {
      assert Join(e)[|Join(e[..|e| - 1])|] == '&';
    }
  }

  /** Equal canonical strings join equally many pairs, as far as none, one or more. */
  lemma JoinSameShape(e1: seq<Entry>, e2: seq<Entry>)
    requires Join(e1) == Join(e2)
    ensures |e1| == 0 <==> |e2| == 0
    ensures |e1| == 1 <==> |e2| == 1
  {
    JoinEmpty(e1);
    JoinEmpty(e2);
    JoinSeparators(e1);
    JoinSeparators(e2);
  }

  /** Two joins of two pairs or more that agree agree on their last pair and on what precedes it. */
  lemma JoinLastPair(e1: seq<Entry>, e2: seq<Entry>)
    requires |e1| > 1 && |e2| > 1 && Join(e1) == Join(e2)
    ensures Join(e1[..|e1| - 1]) == Join(e2[..|e2| - 1]) && e1[|e1| - 1] == e2[|e2| - 1]
  {
    var x1, x2 := e1[|e1| - 1], e2[|e2| - 1];
    PairHasNoAmpersand(x1);
    PairHasNoAmpersand(x2);
    SplitAtLast(Join(e1[..|e1| - 1]), Pair(x1), Join(e2[..|e2| - 1]), Pair(x2), '&');
    PairInjective(x1, x2);
  }

  /**
    * Distinct lists have distinct canonical strings: the last '&' separates
    * the last pair, which no other '&' is part of.
    */
  lemma {:induction false} JoinInjective(e1: seq<Entry>, e2: seq<Entry>)
    ensures Join(e1) == Join(e2) ==> e1 == e2
    decreases |e1|
  {
    if Join(e1) == Join(e2) && |e1| > 1 {
      JoinSameShape(e1, e2);
      JoinLastPair(e1, e2);
      JoinInjective(e1[..|e1| - 1], e2[..|e2| - 1]);
      SameButLast(e1, e2);
    } else if Join(e1) == Join(e2) {
      JoinSameShape(e1, e2);
      if |e1| == 1 {
        PairInjective(e1[0], e2[0]);
      }
    }
  }

  lemma SameButLast(e1: seq<Entry>, e2: seq<Entry>)
    requires e1 != [] && e2 != []
    requires e1[..|e1| - 1] == e2[..|e2| - 1] && e1[|e1| - 1] == e2[|e2| - 1]
    ensures e1 == e2
  {
    assert e1 == e1[..|e1| - 1] + [e1[|e1| - 1]];
    assert e2 == e2[..|e2| - 1] + [e2[|e2| - 1]];
  }

  /**
    * What the StringBuilder loops of CreateRequestUrl and GetResponseData
    * accumulate: "pair&" for every entry whose value is not empty.
    */
  function QueryString(e: seq<Entry>): (s: string)
    ensures s == "" || s[|s| - 1] == '&'
  {
    if e == [] then ""
    else QueryString(e[..|e| - 1]) + (if e[|e| - 1].value != "" then Pair(e[|e| - 1]) + "&" else "")
  }

  lemma QueryStringStep(e: seq<Entry>, i: nat)
    requires i < |e|
    ensures QueryString(e[..i + 1]) == QueryString(e[..i]) + (if e[i].value != "" then Pair(e[i]) + "&" else "")
  {
    assert e[..i + 1][..i] == e[..i];
  }

  /**
    * With no empty value stored, the emptiness guard never skips an entry and
    * the accumulated string is the canonical string plus one trailing '&'.
    */
  lemma {:induction false} QueryStringIsJoin(e: seq<Entry>)
    requires NoEmptyValues(e)
    ensures e == [] ==> QueryString(e) == ""
    ensures e != [] ==> QueryString(e) == Join(e) + "&"
  {
    if e != [] {
      QueryStringIsJoin(e[..|e| - 1]);
    }
  }

  /** Two sorted lists with the same map end in the same entry: the one with the greatest key. */
  lemma {:induction false} SameMapSameLast(a: seq<Entry>, b: seq<Entry>)
    requires Sorted(a) && Sorted(b) && ToMap(a) == ToMap(b) && a != [] && b != []
    ensures a[|a| - 1] == b[|b| - 1]
  {
    ToMapKeys(a);
    ToMapKeys(b);
    var ka, kb := a[|a| - 1].key, b[|b| - 1].key;
    assert ka in ToMap(b);
    var j :| 0 <= j < |b| && b[j].key == ka;
    assert kb in ToMap(a);
    var i :| 0 <= i < |a| && a[i].key == kb;
    if ka != kb {
      assert Less(a[i].key, a[|a| - 1].key);
      assert Less(b[j].key, b[|b| - 1].key);
      LessAsymmetric(kb, ka);
    }
  }

  /**
    * Two sorted lists with the same map are the same list: the order of
    * entries, and so every string built from them, does not depend on the
    * order in which they were added.
    */
  lemma {:induction false} SortedUnique(a: seq<Entry>, b: seq<Entry>)
    requires Sorted(a) && Sorted(b) && ToMap(a) == ToMap(b)
    ensures a == b
    decreases |a|
  {
    ToMapEmpty(a);
    ToMapEmpty(b);
    if a != [] && b != [] {
      SameMapSameLast(a, b);
      var pa, pb, x := a[..|a| - 1], b[..|b| - 1], a[|a| - 1];
      LastNotInPrefix(a);
      LastNotInPrefix(b);
      assert ToMap(pa) == ToMap(a) - {x.key};
      assert ToMap(pb) == ToMap(b) - {x.key};
      SortedUnique(pa, pb);
      assert a == pa + [x];
      assert b == pb + [x];
    }
  }

  lemma {:induction false} CanonicalExists(m: map<string, string>)
    ensures exists e :: Sorted(e) && ToMap(e) == m
    decreases |m.Keys|
  {
    if m == map[] {
      assert Sorted([]) && ToMap([]) == m;
    } else {
      var k :| k in m;
      var m' := m - {k};
      assert m'.Keys == m.Keys - {k};
      CanonicalExists(m');
      var e' :| Sorted(e') && ToMap(e') == m';
      InsertSortedCorrect(e', k, m[k]);
      assert ToMap(InsertSorted(e', k, m[k])) == m;
    }
  }

  /** The one sorted list that holds exactly the entries of `m`. */
  ghost function Canonical(m: map<string, string>): (e: seq<Entry>)
    ensures Sorted(e) && ToMap(e) == m
  {
    CanonicalExists(m);
    var e :| Sorted(e) && ToMap(e) == m; e
  }

  /** The canonical string of a parameter map. */
  ghost function SignedString(m: map<string, string>): string {
    Join(Canonical(m))
  }

  lemma CanonicalOfSorted(e: seq<Entry>)
    requires Sorted(e)
    ensures Canonical(ToMap(e)) == e && SignedString(ToMap(e)) == Join(e)
  {
    SortedUnique(Canonical(ToMap(e)), e);
  }

  /**
    * Distinct maps have distinct canonical strings, so a signature over the
    * canonical string covers every key and every value of the map.
    */
  lemma SignedStringInjective(m1: map<string, string>, m2: map<string, string>)
    ensures SignedString(m1) == SignedString(m2) ==> m1 == m2
  {
    JoinInjective(Canonical(m1), Canonical(m2));
  }
}
