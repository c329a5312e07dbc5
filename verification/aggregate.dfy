/** The fan-in shared by both details handlers (handlers/handlers.go:35-87 and
    main.go:74-126): every listed dinosaur is scraped, a result whose meaning
    reads "N/A" is counted in an `int16` counter whether or not its scrape
    failed, and each successful record is stamped with the listing's name and
    link. The source runs one goroutine per dinosaur; the model takes their
    outcomes in one order, and `CollectOrderFree` shows that any other order
    gives the same records and the same count. */
module Aggregate {
  import opened Common

  /** What one goroutine produced: its listing entry and the scraper's pair. */
  datatype Outcome = Outcome(entry: DinoRef, data: Record, err: Option<Error>)

  /** A record whose meaning reads "N/A" (a missing key reads as ""). */
  predicate IsNoData(m: Record) {
    Get(m, "meaning") == "N/A"
  }

  /** The record a successful goroutine sends: the scraped data, with the
      listing's name and link written over it. */
  function Stamp(o: Outcome): (r: Record)
    ensures r.Keys == o.data.Keys + {"name", "link"}
    ensures r["name"] == o.entry.name && r["link"] == o.entry.link
    ensures forall k :: k in o.data && k != "name" && k != "link" ==> r[k] == o.data[k]
  {
    o.data["name" := o.entry.name]["link" := o.entry.link]
  }

  /** The records that reach the channel, in the order of the outcomes. */
  function Survivors(os: seq<Outcome>): (rs: seq<Record>)
    ensures |rs| <= |os|
  {
    if os == [] then []
    else
      var o := os[|os| - 1];
      Survivors(os[..|os| - 1]) + if o.err.None? then [Stamp(o)] else []
  }

  /** How many outcomes read "N/A" as their meaning, failed ones included. */
  function NoDataCount(os: seq<Outcome>): (n: nat)
    ensures n <= |os|
  {
    if os == [] then 0
    else NoDataCount(os[..|os| - 1]) + if IsNoData(os[|os| - 1].data) then 1 else 0
  }

  /** How many records read "N/A" as their meaning. */
  function CountNoData(rs: seq<Record>): (n: nat)
    ensures n <= |rs|
  {
    if rs == [] then 0
    else CountNoData(rs[..|rs| - 1]) + if IsNoData(rs[|rs| - 1]) then 1 else 0
  }

  // ---------------------------------------------------------------------------
  // The int16 counter

  const Int16Min := -0x8000
  const Int16Max := 0x7fff

  /** The value an `int16` holds after `n` increments from zero. */
  function Wrap16(n: nat): (w: int)
    ensures Int16Min <= w <= Int16Max
    ensures n <= Int16Max ==> w == n
    ensures w <= n
  {
    (n + 0x8000) % 0x1_0000 - 0x8000
  }

  /** `x++` on an `int16`: the maximum wraps to the minimum. */
  function Inc16(x: int): (y: int)
    requires Int16Min <= x <= Int16Max
    ensures Int16Min <= y <= Int16Max
    ensures x < Int16Max ==> y == x + 1
    ensures x == Int16Max ==> y == Int16Min
  {
    if x == Int16Max then Int16Min else x + 1
  }

  /** Incrementing the wrapped count wraps the incremented count. */
  lemma Inc16Wrap(n: nat)
    ensures Inc16(Wrap16(n)) == Wrap16(n + 1)
  {
    var q := (n + 0x8000) / 0x1_0000;
    var m := (n + 0x8000) % 0x1_0000;
    assert n + 0x8000 == q * 0x1_0000 + m;
    if m == 0xffff {
      assert n + 1 + 0x8000 == (q + 1) * 0x1_0000;
    } else {
      assert n + 1 + 0x8000 == q * 0x1_0000 + (m + 1);
    }
  }

  /** The receive loop: every outcome bumps the counter when its meaning is
      "N/A", and only the ones without an error append a stamped record. */
  method Collect(outcomes: seq<Outcome>) returns (records: seq<Record>, noData: int)
    ensures records == Survivors(outcomes)
    ensures noData == Wrap16(NoDataCount(outcomes))
  {
    records := [];
    noData := 0;
    for i := 0 to |outcomes|
      invariant records == Survivors(outcomes[..i])
      invariant noData == Wrap16(NoDataCount(outcomes[..i]))
    {
      var o := outcomes[i];
      assert outcomes[..i + 1][..i] == outcomes[..i];
      if Get(o.data, "meaning") == "N/A" {
        Inc16Wrap(NoDataCount(outcomes[..i]));
        noData := Inc16(noData);
      }
      if o.err.None? {
        var dinoData := o.data["name" := o.entry.name]["link" := o.entry.link];
        records := records + [dinoData];
      }
    }
    assert outcomes[..|outcomes|] == outcomes;
  }

  // ---------------------------------------------------------------------------
  // What the response says

  /** Each record in the response is a successful outcome, stamped. */
  lemma {:induction false} SurvivorsFrom(os: seq<Outcome>)
    ensures forall r :: r in Survivors(os) ==> exists o :: o in os && o.err.None? && r == Stamp(o)
    ensures forall o :: o in os && o.err.None? ==> Stamp(o) in Survivors(os)
  {
    if os != [] {
      var init := os[..|os| - 1];
      SurvivorsFrom(init);
      assert os == init + [os[|os| - 1]];
    }
  }

  /** The response's count is the number of successful outcomes. */
  lemma {:induction false} SurvivorsCount(os: seq<Outcome>)
    ensures |Survivors(os)| == |set i | 0 <= i < |os| && os[i].err.None?|
  {
    if os != [] {
      var init := os[..|os| - 1];
      SurvivorsCount(init);
      var last := |os| - 1;
      var before := set i | 0 <= i < |init| && init[i].err.None?;
      var now := set i | 0 <= i < |os| && os[i].err.None?;
      if os[last].err.None? {
        assert now == before + {last};
      } else {
        assert now == before;
      }
    }
  }

  /** When every successful scrape carries `keys`, every record of the
      response carries them too, plus the name and link of its listing entry. */
  lemma SurvivorRecords(os: seq<Outcome>, keys: set<string>)
    requires forall o :: o in os && o.err.None? ==> keys <= o.data.Keys
    ensures forall rec :: rec in Survivors(os) ==>
      && keys + {"name", "link"} <= rec.Keys
      && (exists o :: o in os && rec["name"] == o.entry.name && rec["link"] == o.entry.link)
  {
    SurvivorsFrom(os);
    forall rec | rec in Survivors(os)
      ensures keys + {"name", "link"} <= rec.Keys
      ensures exists o :: o in os && rec["name"] == o.entry.name && rec["link"] == o.entry.link
    {
      var o :| o in os && o.err.None? && rec == Stamp(o);
    }
  }

  /** Stamping leaves the meaning alone. */
  lemma StampKeepsMeaning(o: Outcome)
    ensures IsNoData(Stamp(o)) == IsNoData(o.data)
  {
  }

  /** When a failed scrape returns an empty map, as both scrapers do, the
      counter counts exactly the "N/A" records of the response, so it never
      exceeds `results`. */
  lemma {:induction false} NoDataCountsSurvivors(os: seq<Outcome>)
    requires forall o :: o in os && o.err.Some? ==> o.data == map[]
    ensures NoDataCount(os) == CountNoData(Survivors(os))
    ensures NoDataCount(os) <= |Survivors(os)|
  {
    if os != [] {
      var init := os[..|os| - 1];
      var o := os[|os| - 1];
      assert forall p :: p in init ==> p in os;
      NoDataCountsSurvivors(init);
      if o.err.None? {
        var rs := Survivors(init) + [Stamp(o)];
        assert rs[..|rs| - 1] == Survivors(init);
        StampKeepsMeaning(o);
      } else {
        assert o in os && o.data == map[];
        assert !IsNoData(o.data);
        assert Survivors(os) == Survivors(init) + [] == Survivors(init);
        assert NoDataCount(os) == NoDataCount(init);
      }
    }
  }

  // ---------------------------------------------------------------------------
  // Arrival order

  lemma {:induction false} AppendOutcomes(a: seq<Outcome>, b: seq<Outcome>)
    ensures Survivors(a + b) == Survivors(a) + Survivors(b)
    ensures NoDataCount(a + b) == NoDataCount(a) + NoDataCount(b)
    decreases |b|
  {
    if b == [] {
      assert a + b == a;
    } else {
      var b' := b[..|b| - 1];
      AppendOutcomes(a, b');
      assert (a + b)[..|a + b| - 1] == a + b';
      assert (a + b)[|a + b| - 1] == b[|b| - 1];
    }
  }

  lemma MultisetRemove(init: seq<Outcome>, o: Outcome, a: seq<Outcome>, b: seq<Outcome>)
    requires multiset(init + [o]) == multiset(a + [o] + b)
    ensures multiset(init) == multiset(a + b)
  {
    calc {
      multiset(init);
      multiset(init + [o]) - multiset{o};
      multiset(a + [o] + b) - multiset{o};
      { assert a + [o] + b == (a + [o]) + b; }
      multiset(a) + multiset(b);
      multiset(a + b);
    }
  }

  /** Taking one outcome out of the middle of a sequence. */
  lemma {:induction false} RemoveMiddle(a: seq<Outcome>, o: Outcome, b: seq<Outcome>)
    ensures multiset(Survivors(a + [o] + b)) == multiset(Survivors(a + b)) + multiset(Survivors([o]))
    ensures NoDataCount(a + [o] + b) == NoDataCount(a + b) + NoDataCount([o])
  {
    AppendOutcomes(a + [o], b);
    AppendOutcomes(a, [o]);
    AppendOutcomes(a, b);
    calc {
      multiset(Survivors(a + [o] + b));
      multiset(Survivors(a) + Survivors([o]) + Survivors(b));
      multiset(Survivors(a)) + multiset(Survivors([o])) + multiset(Survivors(b));
      multiset(Survivors(a + b)) + multiset(Survivors([o]));
    }
  }

  /** An outcome of `os` splits it around one of its occurrences. */
  lemma SplitAround(os: seq<Outcome>, o: Outcome) returns (a: seq<Outcome>, b: seq<Outcome>)
    requires o in multiset(os)
    ensures os == a + [o] + b
  {
    var k :| 0 <= k < |os| && os[k] == o;
    a, b := os[..k], os[k + 1..];
    assert os == os[..k] + [os[k]] + os[k + 1..];
  }

  /** Goroutines deliver in any order: outcomes that are a rearrangement of
      each other give the same records (as a multiset) and the same count. */
  lemma {:induction false} CollectOrderFree(os1: seq<Outcome>, os2: seq<Outcome>)
    requires multiset(os1) == multiset(os2)
    ensures multiset(Survivors(os1)) == multiset(Survivors(os2))
    ensures NoDataCount(os1) == NoDataCount(os2)
    decreases |os1|
  {
    if os1 == [] {
      assert |os2| == |multiset(os2)| == 0;
    } else {
      var init := os1[..|os1| - 1];
      var o := os1[|os1| - 1];
      assert os1 == init + [o];
      assert o in multiset(os2);
      var a, b := SplitAround(os2, o);
      MultisetRemove(init, o, a, b);
      CollectOrderFree(init, a + b);
      AppendOutcomes(init, [o]);
      RemoveMiddle(a, o, b);
    }
  }
}
