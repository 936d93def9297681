/** `ProtocolMetrics`: per-version request counters, with labels fixed at construction. The
    counters are unbounded here; the 64-bit ones of the source wrap. */
module ProtocolCounters {
  const UNRECOGNISED_LABEL := "unrecognised"

  datatype VersionCounters = VersionCounters(version: string, attempted: nat, authenticated: nat, offered: nat)
  datatype Counters = Counters(versions: seq<VersionCounters>, unrecognised: nat, offeredUnrecognised: nat)

  function Fresh(labels: seq<string>): Counters {
    Counters(seq(|labels|, i requires 0 <= i < |labels| => VersionCounters(labels[i], 0, 0, 0)), 0, 0)
  }

  /** `counters`: where a version's counters are, or the number of labels when it has none. */
  function Slot(versions: seq<VersionCounters>, version: string): (i: nat)
    ensures i <= |versions|
    ensures i < |versions| ==> versions[i].version == version
    ensures forall j :: 0 <= j < i ==> versions[j].version != version
  {
    if versions == [] || versions[0].version == version then 0 else
      var i := 1 + Slot(versions[1..], version);
      assert forall j :: 1 <= j < i ==> versions[j] == versions[1..][j - 1];
      i
  }

  function Attempted(c: Counters, version: string): Counters {
    var i := Slot(c.versions, version);
    if i == |c.versions| then c.(unrecognised := c.unrecognised + 1)
    else c.(versions := c.versions[i := c.versions[i].(attempted := c.versions[i].attempted + 1)])
  }

  function Authenticated(c: Counters, version: string): Counters {
    var i := Slot(c.versions, version);
    if i == |c.versions| then c
    else c.(versions := c.versions[i := c.versions[i].(authenticated := c.versions[i].authenticated + 1)])
  }

  function Offered(c: Counters, version: string): Counters {
    var i := Slot(c.versions, version);
    if i == |c.versions| then c.(offeredUnrecognised := c.offeredUnrecognised + 1)
    else c.(versions := c.versions[i := c.versions[i].(offered := c.versions[i].offered + 1)])
  }

  class ProtocolMetrics {
    var versions: seq<VersionCounters>
    var unrecognised: nat
    var offeredUnrecognised: nat

    function Value(): Counters
      reads this
    {
      Counters(versions, unrecognised, offeredUnrecognised)
    }

    constructor (labels: seq<string>)
      ensures Value() == Fresh(labels)
    {
      versions := Fresh(labels).versions;
      unrecognised, offeredUnrecognised := 0, 0;
    }

    /** The iterator search behind every record. */
    method Find(version: string) returns (i: nat)
      ensures i == Slot(versions, version)
    {
      i := 0;
      while i < |versions| && versions[i].version != version
        invariant i <= |versions|
        invariant forall j :: 0 <= j < i ==> versions[j].version != version
      {
        i := i + 1;
      }
    }

    method RecordAttempted(version: string)
      modifies this
      ensures Value() == Attempted(old(Value()), version)
    {
      var i := Find(version);
      if i < |versions| {
        versions := versions[i := versions[i].(attempted := versions[i].attempted + 1)];
      } else {
        unrecognised := unrecognised + 1;
      }
    }

    method RecordAuthenticated(version: string)
      modifies this
      ensures Value() == Authenticated(old(Value()), version)
    {
      var i := Find(version);
      if i < |versions| {
        versions := versions[i := versions[i].(authenticated := versions[i].authenticated + 1)];
      }
    }

    method RecordOffered(version: string)
      modifies this
      ensures Value() == Offered(old(Value()), version)
      ensures TotalOffered(versions) + offeredUnrecognised == old(TotalOffered(versions) + offeredUnrecognised) + 1
    {
      OfferedAddsOne(Value(), version);
      var i := Find(version);
      if i < |versions| {
        versions := versions[i := versions[i].(offered := versions[i].offered + 1)];
      } else {
        offeredUnrecognised := offeredUnrecognised + 1;
      }
    }
  }

  // ---------- Totals ----------

  predicate LabelledBy(c: Counters, labels: seq<string>) {
    |c.versions| == |labels| && forall i :: 0 <= i < |labels| ==> c.versions[i].version == labels[i]
  }

  function TotalAttempted(versions: seq<VersionCounters>): nat {
    if versions == [] then 0 else versions[0].attempted + TotalAttempted(versions[1..])
  }

  lemma TotalAfterUpdate(versions: seq<VersionCounters>, i: nat, v: VersionCounters)
    requires i < |versions|
    ensures TotalAttempted(versions[i := v]) == TotalAttempted(versions) - versions[i].attempted + v.attempted
  {
    if i == 0 {
      assert versions[i := v][1..] == versions[1..];
    } else {
      assert versions[i := v][1..] == versions[1..][i - 1 := v];
      TotalAfterUpdate(versions[1..], i - 1, v);
    }
  }

  /** Every attempt is counted exactly once, under its version or as unrecognised. */
  lemma AttemptedAddsOne(c: Counters, version: string)
    ensures var c' := Attempted(c, version);
            TotalAttempted(c'.versions) + c'.unrecognised == TotalAttempted(c.versions) + c.unrecognised + 1
  {
    var i := Slot(c.versions, version);
    if i < |c.versions| {
      TotalAfterUpdate(c.versions, i, c.versions[i].(attempted := c.versions[i].attempted + 1));
    }
  }

  lemma AuthenticatedAddsNoAttempt(c: Counters, version: string)
    ensures TotalAttempted(Authenticated(c, version).versions) == TotalAttempted(c.versions)
  {
    var i := Slot(c.versions, version);
    if i < |c.versions| {
      TotalAfterUpdate(c.versions, i, c.versions[i].(authenticated := c.versions[i].authenticated + 1));
    }
  }

  function TotalOffered(versions: seq<VersionCounters>): nat {
    if versions == [] then 0 else versions[0].offered + TotalOffered(versions[1..])
  }

  lemma TotalOfferedAfterUpdate(versions: seq<VersionCounters>, i: nat, v: VersionCounters)
    requires i < |versions|
    ensures TotalOffered(versions[i := v]) == TotalOffered(versions) - versions[i].offered + v.offered
  {
    if i == 0 {
      assert versions[i := v][1..] == versions[1..];
    } else {
      assert versions[i := v][1..] == versions[1..][i - 1 := v];
      TotalOfferedAfterUpdate(versions[1..], i - 1, v);
    }
  }

  /** Every offer is counted exactly once, under the first label equal to its version or as
      unrecognised when there is none, and touches no other counter. */
  lemma OfferedAddsOne(c: Counters, version: string)
    ensures var c' := Offered(c, version);
            && TotalOffered(c'.versions) + c'.offeredUnrecognised == TotalOffered(c.versions) + c.offeredUnrecognised + 1
            && (c'.offeredUnrecognised > c.offeredUnrecognised <==> forall i :: 0 <= i < |c.versions| ==> c.versions[i].version != version)
            && c'.unrecognised == c.unrecognised && |c'.versions| == |c.versions|
            && (forall i :: 0 <= i < |c.versions| ==>
                  && c'.versions[i].(offered := c.versions[i].offered) == c.versions[i]
                  && (c'.versions[i].offered != c.versions[i].offered ==> c.versions[i].version == version))
  {
    var i := Slot(c.versions, version);
    if i < |c.versions| {
      TotalOfferedAfterUpdate(c.versions, i, c.versions[i].(offered := c.versions[i].offered + 1));
    }
  }
}
