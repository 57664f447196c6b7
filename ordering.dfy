/** The final ordering of the accepted records by their index value: the
    in-place `sort` keyed on `valor`, modelled as a stable insertion sort. */
module Ordering {
  import opened Scan

  predicate SortedByValor(s: seq<Sample>)
  {
    forall i, j :: 0 <= i < j < |s| ==> s[i].valor <= s[j].valor
  }

  predicate StrictlyAscending(s: seq<Sample>)
  {
    forall i, j :: 0 <= i < j < |s| ==> s[i].valor < s[j].valor
  }

  /** Inserts x into a list sorted by value, before every record whose value
      is not smaller, so that records with equal keys keep their order. */
  function InsertByValor(x: Sample, s: seq<Sample>): (r: seq<Sample>)
    requires SortedByValor(s)
    ensures |r| == |s| + 1
    ensures multiset(r) == multiset(s) + multiset{x}
    ensures r[0] == x || (s != [] && r[0] == s[0])
    ensures SortedByValor(r)
  {
    if s == [] then [x]
    else if x.valor <= s[0].valor then [x] + s
    else
      var rest := InsertByValor(x, s[1..]);
      ConsMultiset(s, rest, multiset{x});
      ConsOrdered(s[0], rest);
      [s[0]] + rest
  }

  /** Inserting a value not yet present into a strictly ascending list
      keeps it strictly ascending. */
  lemma {:induction false} InsertKeepsStrict(x: Sample, s: seq<Sample>)
    requires SortedByValor(s)
    ensures StrictlyAscending(s) && (forall i :: 0 <= i < |s| ==> s[i].valor != x.valor) ==>
      StrictlyAscending(InsertByValor(x, s))
  {
    if s != [] && StrictlyAscending(s) && (forall i :: 0 <= i < |s| ==> s[i].valor != x.valor) {
      if x.valor <= s[0].valor {
        ConsOrdered(x, s);
      } else {
        assert forall i :: 0 <= i < |s[1..]| ==> s[1..][i].valor != x.valor;
        InsertKeepsStrict(x, s[1..]);
        ConsOrdered(s[0], InsertByValor(x, s[1..]));
      }
    }
  }

  /** Putting the head of s back in front of a list holding its tail and
      some extra records gives the records of s and those extra ones. */
  lemma ConsMultiset(s: seq<Sample>, rest: seq<Sample>, extra: multiset<Sample>)
    requires s != []
    requires multiset(rest) == multiset(s[1..]) + extra
    ensures multiset([s[0]] + rest) == multiset(s) + extra
  {
    assert s == [s[0]] + s[1..];
  }

  /** Putting a record in front of an ordered list keeps it ordered when the
      record's value does not exceed (is below) that of the list's head. */
  lemma ConsOrdered(h: Sample, rest: seq<Sample>)
    requires rest != []
    ensures SortedByValor(rest) && h.valor <= rest[0].valor ==> SortedByValor([h] + rest)
    ensures StrictlyAscending(rest) && h.valor < rest[0].valor ==> StrictlyAscending([h] + rest)
  {
    var r := [h] + rest;
    if SortedByValor(rest) && h.valor <= rest[0].valor {
      forall i, j | 0 <= i < j < |r|
        ensures r[i].valor <= r[j].valor
      {
        if i == 0 && j > 1 {
          assert rest[0].valor <= rest[j - 1].valor;
        }
      }
    }
    if StrictlyAscending(rest) && h.valor < rest[0].valor {
      forall i, j | 0 <= i < j < |r|
        ensures r[i].valor < r[j].valor
      {
        if i == 0 && j > 1 {
          assert rest[0].valor < rest[j - 1].valor;
        }
      }
    }
  }

  /** The records ordered by value, equal keys in their original order. */
  function SortByValor(s: seq<Sample>): (r: seq<Sample>)
    ensures |r| == |s|
    ensures multiset(r) == multiset(s)
    ensures SortedByValor(r)
    ensures DistinctValues(s) ==> StrictlyAscending(r)
  {
    if s == [] then []
    else
      var rest := SortByValor(s[1..]);
      assert s == [s[0]] + s[1..];
      DistinctHead(s, rest);
      InsertKeepsStrict(s[0], rest);
      InsertByValor(s[0], rest)
  }

  /** When the values of s are distinct, the value of its head differs from
      every value in any reordering of its tail. */
  lemma DistinctHead(s: seq<Sample>, rest: seq<Sample>)
    requires s != []
    requires multiset(rest) == multiset(s[1..])
    ensures DistinctValues(s) ==> forall i :: 0 <= i < |rest| ==> rest[i].valor != s[0].valor
  {
    if DistinctValues(s) {
      forall i | 0 <= i < |rest|
        ensures rest[i].valor != s[0].valor
      {
        assert rest[i] in multiset(rest);
        assert rest[i] in s[1..];
        var k :| 0 <= k < |s[1..]| && s[1..][k] == rest[i];
        assert s[k + 1] == rest[i];
      }
    }
  }

  /** Reordering keeps the records: the sorted list holds exactly the records
      of its input, and so exactly the same values. */
  lemma SortKeepsRecords(s: seq<Sample>)
    ensures |SortByValor(s)| == |s|
    ensures forall x :: x in SortByValor(s) <==> x in s
    ensures forall v :: v in Values(SortByValor(s)) <==> v in Values(s)
  {
    var r := SortByValor(s);
    assert |multiset(r)| == |multiset(s)|;
    forall x
      ensures x in r <==> x in s
    {
      assert x in r <==> x in multiset(r);
      assert x in s <==> x in multiset(s);
    }
    forall v
      ensures v in Values(r) <==> v in Values(s)
    {
      if v in Values(r) {
        var i :| 0 <= i < |r| && Values(r)[i] == v;
        assert r[i] in s;
        var j :| 0 <= j < |s| && s[j] == r[i];
        assert Values(s)[j] == v;
      }
      if v in Values(s) {
        var j :| 0 <= j < |s| && Values(s)[j] == v;
        assert s[j] in r;
        var i :| 0 <= i < |r| && r[i] == s[j];
        assert Values(r)[i] == v;
      }
    }
  }
}
