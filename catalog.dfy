/** The translation dictionaries built once per run from the controller's
    inventory: sites, elements (devices) with their interfaces, and element
    images split into released and unsupported buckets. */
module Catalog {
  import opened Api

  datatype SiteRec = SiteRec(id: Json, name: string)
  datatype ElemRec = ElemRec(id: string, name: string, hwId: string, siteId: Json)
  datatype IntfRec = IntfRec(id: string, name: string)
  datatype ImageRec = ImageRec(id: string, version: string, state: string)

  /** Interfaces are keyed by the element's site and id together with the
      interface's own name (or id), so equal names on two devices differ. */
  datatype IntfKey = IntfKey(site: Json, element: string, intf: string)

  /** The unassigned-site id, which the controller may send as "1" or as 1. */
  predicate Unassigned(sid: Json)
  {
    sid == Str("1") || sid == Num(1)
  }

  // Record fields as function values, the keys and values of the dictionaries.
  function SiteIdOf(s: SiteRec): Json { s.id }
  function SiteNameOf(s: SiteRec): string { s.name }
  function ElemIdOf(e: ElemRec): string { e.id }
  function ElemNameOf(e: ElemRec): string { e.name }
  function ElemHwIdOf(e: ElemRec): string { e.hwId }
  function ElemSiteOf(e: ElemRec): Json { e.siteId }
  function ImageIdOf(m: ImageRec): string { m.id }
  function ImageVersionOf(m: ImageRec): string { m.version }

  /** The key of an interface of element `eid` at site `sid`: by name for the
      name-to-id dictionary, by id for the id-to-name one. */
  function ScopedKey(sid: Json, eid: string, byName: bool): IntfRec -> IntfKey
  {
    (r: IntfRec) => IntfKey(sid, eid, if byName then r.name else r.id)
  }

  function IntfValOf(byName: bool): IntfRec -> string
  {
    (r: IntfRec) => if byName then r.id else r.name
  }

  // ---------------------------------------------------------------------------
  // Dictionaries filled by a loop of assignments `d[key(r)] = val(r)`
  // ---------------------------------------------------------------------------

  /** The dictionary that assigning `d[key(r)] = val(r)` for every record in
      order leaves behind: a repeated key keeps the last record's value. */
  function Index<R, K, V>(rs: seq<R>, key: R -> K, val: R -> V): map<K, V>
    decreases |rs|
  {
    if rs == [] then map[]
    else Index(rs[..|rs| - 1], key, val)[key(rs[|rs| - 1]) := val(rs[|rs| - 1])]
  }

  /** No two records share a key. */
  ghost predicate Distinct<R, K>(rs: seq<R>, key: R -> K)
  {
    forall i, j :: 0 <= i < j < |rs| ==> key(rs[i]) != key(rs[j])
  }

  /** The keys of the dictionary are exactly the keys of the records. */
  lemma {:induction false} IndexKeys<R, K, V>(rs: seq<R>, key: R -> K, val: R -> V, k: K)
    ensures k in Index(rs, key, val) <==> exists i :: 0 <= i < |rs| && key(rs[i]) == k
    decreases |rs|
  {
    if rs != [] {
      var n := |rs| - 1;
      var front := rs[..n];
      IndexKeys(front, key, val, k);
      if k in Index(front, key, val) {
        var i :| 0 <= i < |front| && key(front[i]) == k;
        assert rs[i] == front[i];
      }
      if exists i :: 0 <= i < |rs| && key(rs[i]) == k {
        var i :| 0 <= i < |rs| && key(rs[i]) == k;
        if i < n {
          assert front[i] == rs[i];
        }
      }
    }
  }

  /** Every key holds the value of the LAST record that carries it. */
  lemma {:induction false} IndexFind<R, K, V>(rs: seq<R>, key: R -> K, val: R -> V, k: K) returns (i: nat)
    requires k in Index(rs, key, val)
    ensures i < |rs| && key(rs[i]) == k && Index(rs, key, val)[k] == val(rs[i])
    ensures forall j :: i < j < |rs| ==> key(rs[j]) != k
    decreases |rs|
  {
    var n := |rs| - 1;
    var front := rs[..n];
    if key(rs[n]) == k {
      i := n;
    } else {
      i := IndexFind(front, key, val, k);
      assert front[i] == rs[i];
      forall j | i < j < |rs|
        ensures key(rs[j]) != k
      {
        if j < n {
          assert front[j] == rs[j];
        }
      }
    }
  }

  /** A record that no later record overrides is what its key maps to. */
  lemma {:induction false} IndexLastWins<R, K, V>(rs: seq<R>, key: R -> K, val: R -> V, i: nat)
    requires i < |rs|
    requires forall j :: i < j < |rs| ==> key(rs[j]) != key(rs[i])
    ensures key(rs[i]) in Index(rs, key, val) && Index(rs, key, val)[key(rs[i])] == val(rs[i])
    decreases |rs|
  {
    var n := |rs| - 1;
    if i < n {
      var front := rs[..n];
      assert front[i] == rs[i];
      forall j | i < j < |front|
        ensures key(front[j]) != key(front[i])
      {
        assert front[j] == rs[j];
      }
      IndexLastWins(front, key, val, i);
    }
  }

  /** With distinct keys, every record is found under its own key. */
  lemma IndexDistinct<R, K, V>(rs: seq<R>, key: R -> K, val: R -> V, i: nat)
    requires Distinct(rs, key)
    requires i < |rs|
    ensures key(rs[i]) in Index(rs, key, val) && Index(rs, key, val)[key(rs[i])] == val(rs[i])
  {
    IndexLastWins(rs, key, val, i);
  }

  /** The a-to-b and b-to-a dictionaries built from the same records are
      inverse on the b side: when the a-keys are distinct, looking a b-key up
      and the result back gives the b-key again. */
  lemma IndexRoundTrip<R, A, B>(rs: seq<R>, a: R -> A, b: R -> B, k: B)
    requires Distinct(rs, a)
    requires k in Index(rs, b, a)
    ensures Index(rs, b, a)[k] in Index(rs, a, b)
    ensures Index(rs, a, b)[Index(rs, b, a)[k]] == k
  {
    var i := IndexFind(rs, b, a, k);
    IndexDistinct(rs, a, b, i);
  }

  lemma OverrideEmpty<K, V>(m: map<K, V>)
    ensures m + map[] == m
  {
  }

  lemma OverrideUpdate<K, V>(a: map<K, V>, b: map<K, V>, k: K, v: V)
    ensures (a + b)[k := v] == a + b[k := v]
  {
  }

  lemma OverrideAssoc<K, V>(a: map<K, V>, b: map<K, V>, c: map<K, V>)
    ensures (a + b) + c == a + (b + c)
  {
  }

  /** One more assignment `d[key(rs[i])] = val(rs[i])` into a dictionary that
      started as `base`. */
  lemma OverrideStep<R, K, V>(base: map<K, V>, rs: seq<R>, i: nat, key: R -> K, val: R -> V)
    requires i < |rs|
    ensures (base + Index(rs[..i], key, val))[key(rs[i]) := val(rs[i])] == base + Index(rs[..i + 1], key, val)
  {
    IndexSnoc(rs, i, key, val);
    OverrideUpdate(base, Index(rs[..i], key, val), key(rs[i]), val(rs[i]));
  }

  /** The same step, for a record appended at the end. */
  lemma Appended<R, K, V>(base: map<K, V>, rs: seq<R>, x: R, key: R -> K, val: R -> V)
    ensures (base + Index(rs, key, val))[key(x) := val(x)] == base + Index(rs + [x], key, val)
  {
    var ys := rs + [x];
    assert ys[..|rs|] == rs && ys[..|rs| + 1] == ys && ys[|rs|] == x;
    OverrideStep(base, ys, |rs|, key, val);
  }

  lemma IndexSnoc<R, K, V>(rs: seq<R>, i: nat, key: R -> K, val: R -> V)
    requires i < |rs|
    ensures Index(rs[..i + 1], key, val) == Index(rs[..i], key, val)[key(rs[i]) := val(rs[i])]
  {
    assert rs[..i + 1][..i] == rs[..i];
  }

  // ---------------------------------------------------------------------------
  // The specification of the build
  // ---------------------------------------------------------------------------

  /** The interfaces fetched for an element: none for an element of the
      unassigned site, for which no query is made, or when the query fails. */
  function ElemIntfs(e: ElemRec, fetch: (Json, string) -> Option<seq<IntfRec>>): seq<IntfRec>
  {
    if Unassigned(e.siteId) then [] else Items(fetch(e.siteId, e.id))
  }

  /** The interface dictionary after the element loop (by name: name -> id,
      otherwise id -> name). */
  function IntfIndex(es: seq<ElemRec>, fetch: (Json, string) -> Option<seq<IntfRec>>, byName: bool): map<IntfKey, string>
    decreases |es|
  {
    if es == [] then map[]
    else
      var e := es[|es| - 1];
      IntfIndex(es[..|es| - 1], fetch, byName) + Index(ElemIntfs(e, fetch), ScopedKey(e.siteId, e.id, byName), IntfValOf(byName))
  }

  lemma IntfIndexSnoc(es: seq<ElemRec>, i: nat, fetch: (Json, string) -> Option<seq<IntfRec>>, byName: bool)
    requires i < |es|
    ensures IntfIndex(es[..i + 1], fetch, byName)
         == IntfIndex(es[..i], fetch, byName) + Index(ElemIntfs(es[i], fetch), ScopedKey(es[i].siteId, es[i].id, byName), IntfValOf(byName))
  {
    assert es[..i + 1][..i] == es[..i];
  }

  /** The number of elements outside the unassigned site. */
  function CountAssigned(es: seq<ElemRec>): nat
    decreases |es|
  {
    if es == [] then 0 else (if Unassigned(es[0].siteId) then 0 else 1) + CountAssigned(es[1..])
  }

  lemma {:induction false} CountAssignedSnoc(es: seq<ElemRec>, e: ElemRec)
    ensures CountAssigned(es + [e]) == CountAssigned(es) + (if Unassigned(e.siteId) then 0 else 1)
    decreases |es|
  {
    if es == [] {
      assert (es + [e])[1..] == [];
    } else {
      assert (es + [e])[0] == es[0] && (es + [e])[1..] == es[1..] + [e];
      CountAssignedSnoc(es[1..], e);
    }
  }

  /** The interface queries the element loop issues, one per element outside
      the unassigned site, in element order. */
  function IntfQueries(es: seq<ElemRec>): (qs: seq<Call>)
    ensures forall c :: c in qs ==> c.GetInterfaces? && !Unassigned(c.site)
    ensures forall c :: c in qs ==> exists e :: e in es && c == GetInterfaces(e.siteId, e.id)
    ensures forall e :: e in es && !Unassigned(e.siteId) ==> GetInterfaces(e.siteId, e.id) in qs
    ensures |qs| == CountAssigned(es)
    decreases |es|
  {
    if es == [] then []
    else
      var e := es[|es| - 1];
      assert forall x :: x in es[..|es| - 1] ==> x in es;
      assert forall x :: x in es ==> x in es[..|es| - 1] || x == e;
      CountAssignedSnoc(es[..|es| - 1], e);
      assert es[..|es| - 1] + [e] == es;
      IntfQueries(es[..|es| - 1]) + (if Unassigned(e.siteId) then [] else [GetInterfaces(e.siteId, e.id)])
  }

  lemma IntfQueriesSnoc(es: seq<ElemRec>, i: nat)
    requires i < |es|
    ensures IntfQueries(es[..i + 1]) == IntfQueries(es[..i]) + (if Unassigned(es[i].siteId) then [] else [GetInterfaces(es[i].siteId, es[i].id)])
  {
    assert es[..i + 1][..i] == es[..i];
  }

  /** The images whose state is "release", in order. */
  function Released(ms: seq<ImageRec>): seq<ImageRec>
    decreases |ms|
  {
    if ms == [] then []
    else
      var x := ms[|ms| - 1];
      Released(ms[..|ms| - 1]) + (if x.state == "release" then [x] else [])
  }

  /** The images in any other state, in order. */
  function Unsupported(ms: seq<ImageRec>): seq<ImageRec>
    decreases |ms|
  {
    if ms == [] then []
    else
      var x := ms[|ms| - 1];
      Unsupported(ms[..|ms| - 1]) + (if x.state != "release" then [x] else [])
  }

  lemma BucketsSnoc(ms: seq<ImageRec>, i: nat)
    requires i < |ms|
    ensures Released(ms[..i + 1]) == Released(ms[..i]) + (if ms[i].state == "release" then [ms[i]] else [])
    ensures Unsupported(ms[..i + 1]) == Unsupported(ms[..i]) + (if ms[i].state != "release" then [ms[i]] else [])
  {
    assert ms[..i + 1][..i] == ms[..i];
  }

  /** The released bucket holds exactly the images in state "release", the
      unsupported bucket exactly the others. */
  lemma {:induction false} BucketsMembers(ms: seq<ImageRec>, x: ImageRec)
    ensures x in Released(ms) <==> x in ms && x.state == "release"
    ensures x in Unsupported(ms) <==> x in ms && x.state != "release"
    decreases |ms|
  {
    if ms != [] {
      var n := |ms| - 1;
      BucketsMembers(ms[..n], x);
      assert ms == ms[..n] + [ms[n]];
    }
  }

  /** Each image lands in exactly one of the two buckets. */
  lemma {:induction false} BucketsPartition(ms: seq<ImageRec>)
    ensures multiset(Released(ms)) + multiset(Unsupported(ms)) == multiset(ms)
    ensures |Released(ms)| + |Unsupported(ms)| == |ms|
    decreases |ms|
  {
    if ms != [] {
      var n := |ms| - 1;
      BucketsPartition(ms[..n]);
      assert ms == ms[..n] + [ms[n]];
      BucketsPartitionStep(ms[..n], ms[n]);
    }
  }

  /** The partition survives one more image. */
  lemma BucketsPartitionStep(front: seq<ImageRec>, x: ImageRec)
    requires multiset(Released(front)) + multiset(Unsupported(front)) == multiset(front)
    requires |Released(front)| + |Unsupported(front)| == |front|
    ensures multiset(Released(front + [x])) + multiset(Unsupported(front + [x])) == multiset(front + [x])
    ensures |Released(front + [x])| + |Unsupported(front + [x])| == |front + [x]|
  {
    var ms, rel, uns := front + [x], Released(front), Unsupported(front);
    assert ms[..|front|] == front;
    assert multiset(ms) == multiset(front) + multiset{x};
    if x.state == "release" {
      assert Released(ms) == rel + [x] && Unsupported(ms) == uns;
      assert multiset(rel + [x]) == multiset(rel) + multiset{x};
    } else {
      assert Released(ms) == rel && Unsupported(ms) == uns + [x];
      assert multiset(uns + [x]) == multiset(uns) + multiset{x};
    }
  }

  /** The fourteen module-level dictionaries, as one value. */
  datatype Tables = Tables(
    siteIdName: map<Json, string>,
    siteNameId: map<string, Json>,
    elemIdName: map<string, string>,
    elemNameId: map<string, string>,
    elemIdHwid: map<string, string>,
    elemHwidId: map<string, string>,
    hwidSid: map<string, Json>,
    elemidSid: map<string, Json>,
    intfIdName: map<IntfKey, string>,
    intfNameId: map<IntfKey, string>,
    imageIdName: map<string, string>,
    imageNameId: map<string, string>,
    unsupportedIdName: map<string, string>,
    unsupportedNameId: map<string, string>)
  {
    /** Assigning every entry of `t` into these dictionaries. */
    function Override(t: Tables): Tables
    {
      Tables(
        siteIdName + t.siteIdName, siteNameId + t.siteNameId,
        elemIdName + t.elemIdName, elemNameId + t.elemNameId,
        elemIdHwid + t.elemIdHwid, elemHwidId + t.elemHwidId,
        hwidSid + t.hwidSid, elemidSid + t.elemidSid,
        intfIdName + t.intfIdName, intfNameId + t.intfNameId,
        imageIdName + t.imageIdName, imageNameId + t.imageNameId,
        unsupportedIdName + t.unsupportedIdName, unsupportedNameId + t.unsupportedNameId)
    }
  }

  /** Tables that agree field by field with an override are that override. */
  lemma OverrideFields(a: Tables, b: Tables, c: Tables)
    requires c.siteIdName == a.siteIdName + b.siteIdName && c.siteNameId == a.siteNameId + b.siteNameId
    requires c.elemIdName == a.elemIdName + b.elemIdName && c.elemNameId == a.elemNameId + b.elemNameId
    requires c.elemIdHwid == a.elemIdHwid + b.elemIdHwid && c.elemHwidId == a.elemHwidId + b.elemHwidId
    requires c.hwidSid == a.hwidSid + b.hwidSid && c.elemidSid == a.elemidSid + b.elemidSid
    requires c.intfIdName == a.intfIdName + b.intfIdName && c.intfNameId == a.intfNameId + b.intfNameId
    requires c.imageIdName == a.imageIdName + b.imageIdName && c.imageNameId == a.imageNameId + b.imageNameId
    requires c.unsupportedIdName == a.unsupportedIdName + b.unsupportedIdName
    requires c.unsupportedNameId == a.unsupportedNameId + b.unsupportedNameId
    ensures c == a.Override(b)
  {
  }

  function Empty(): Tables
  {
    Tables(map[], map[], map[], map[], map[], map[], map[], map[], map[], map[], map[], map[], map[], map[])
  }

  /** What the planner relies on: every element id that a serial number
      resolves to has a recorded site. */
  ghost predicate WellFormed(t: Tables)
  {
    forall h :: h in t.elemHwidId ==> t.elemHwidId[h] in t.elemidSid
  }

  /** The dictionaries the build produces from the three inventory fetches and
      the per-element interface fetches; a failed fetch leaves its family empty. */
  function Build(sites: Option<seq<SiteRec>>, elems: Option<seq<ElemRec>>, images: Option<seq<ImageRec>>,
                 fetch: (Json, string) -> Option<seq<IntfRec>>): Tables
  {
    var ss, es, ms := Items(sites), Items(elems), Items(images);
    Tables(
      siteIdName := Index(ss, SiteIdOf, SiteNameOf),
      siteNameId := Index(ss, SiteNameOf, SiteIdOf),
      elemIdName := Index(es, ElemIdOf, ElemNameOf),
      elemNameId := Index(es, ElemNameOf, ElemIdOf),
      elemIdHwid := Index(es, ElemIdOf, ElemHwIdOf),
      elemHwidId := Index(es, ElemHwIdOf, ElemIdOf),
      hwidSid := Index(es, ElemHwIdOf, ElemSiteOf),
      elemidSid := Index(es, ElemIdOf, ElemSiteOf),
      intfIdName := IntfIndex(es, fetch, false),
      intfNameId := IntfIndex(es, fetch, true),
      imageIdName := Index(Released(ms), ImageIdOf, ImageVersionOf),
      imageNameId := Index(Released(ms), ImageVersionOf, ImageIdOf),
      unsupportedIdName := Index(Unsupported(ms), ImageIdOf, ImageVersionOf),
      unsupportedNameId := Index(Unsupported(ms), ImageVersionOf, ImageIdOf))
  }

  /** The error lines the build prints, one per failed inventory fetch. */
  datatype BuildError = SitesNotRetrieved | ElementsNotRetrieved | ImagesNotRetrieved

  function BuildErrors(sites: Option<seq<SiteRec>>, elems: Option<seq<ElemRec>>, images: Option<seq<ImageRec>>): seq<BuildError>
  {
    (if sites.None? then [SitesNotRetrieved] else [])
    + (if elems.None? then [ElementsNotRetrieved] else [])
    + (if images.None? then [ImagesNotRetrieved] else [])
  }

  /** The requests the build sends, in order. */
  function BuildCalls(elems: Option<seq<ElemRec>>): seq<Call>
  {
    [GetSites, GetElements] + IntfQueries(Items(elems)) + [GetElementImages]
  }

  // ---------------------------------------------------------------------------
  // Properties of the build
  // ---------------------------------------------------------------------------

  /** A serial number resolves to the id of the last element with that
      hardware id, and that id has a recorded site. */
  lemma BuildWellFormed(sites: Option<seq<SiteRec>>, elems: Option<seq<ElemRec>>, images: Option<seq<ImageRec>>,
                        fetch: (Json, string) -> Option<seq<IntfRec>>)
    ensures WellFormed(Build(sites, elems, images, fetch))
  {
    var t := Build(sites, elems, images, fetch);
    var es := Items(elems);
    forall h | h in t.elemHwidId
      ensures t.elemHwidId[h] in t.elemidSid
    {
      var i := IndexFind(es, ElemHwIdOf, ElemIdOf, h);
      IndexKeys(es, ElemIdOf, ElemSiteOf, es[i].id);
    }
  }

  /** Loading further entries keeps the dictionaries well formed. */
  lemma OverrideWellFormed(a: Tables, b: Tables)
    requires WellFormed(a) && WellFormed(b)
    ensures WellFormed(a.Override(b))
  {
  }

  /** The dictionaries a run starts the planner with (empty ones filled by
      one build) are well formed, whatever the fetches returned. */
  lemma FreshBuildWellFormed(sites: Option<seq<SiteRec>>, elems: Option<seq<ElemRec>>, images: Option<seq<ImageRec>>,
                             fetch: (Json, string) -> Option<seq<IntfRec>>)
    ensures WellFormed(Empty().Override(Build(sites, elems, images, fetch)))
  {
    BuildWellFormed(sites, elems, images, fetch);
    OverrideWellFormed(Empty(), Build(sites, elems, images, fetch));
  }

  /** For an element that no later record overrides, the hardware-id
      dictionaries give its id and site; for one whose id no later record
      repeats, the id dictionaries give its name, hardware id and site. */
  lemma BuildElementLookups(sites: Option<seq<SiteRec>>, elems: seq<ElemRec>, images: Option<seq<ImageRec>>,
                            fetch: (Json, string) -> Option<seq<IntfRec>>, i: nat)
    requires i < |elems|
    ensures var t, e := Build(sites, Some(elems), images, fetch), elems[i];
      ((forall j :: i < j < |elems| ==> elems[j].hwId != e.hwId) ==>
        e.hwId in t.elemHwidId && t.elemHwidId[e.hwId] == e.id &&
        e.hwId in t.hwidSid && t.hwidSid[e.hwId] == e.siteId) &&
      ((forall j :: i < j < |elems| ==> elems[j].id != e.id) ==>
        e.id in t.elemidSid && t.elemidSid[e.id] == e.siteId &&
        e.id in t.elemIdName && t.elemIdName[e.id] == e.name &&
        e.id in t.elemIdHwid && t.elemIdHwid[e.id] == e.hwId)
  {
    var e := elems[i];
    if forall j :: i < j < |elems| ==> elems[j].hwId != e.hwId {
      IndexLastWins(elems, ElemHwIdOf, ElemIdOf, i);
      IndexLastWins(elems, ElemHwIdOf, ElemSiteOf, i);
    }
    if forall j :: i < j < |elems| ==> elems[j].id != e.id {
      IndexLastWins(elems, ElemIdOf, ElemSiteOf, i);
      IndexLastWins(elems, ElemIdOf, ElemNameOf, i);
      IndexLastWins(elems, ElemIdOf, ElemHwIdOf, i);
    }
  }

  /** When element ids are distinct: hardware id -> id -> hardware id and
      name -> id -> name are identities on the known hardware ids and names. */
  lemma BuildElementRoundTrip(sites: Option<seq<SiteRec>>, elems: seq<ElemRec>, images: Option<seq<ImageRec>>,
                              fetch: (Json, string) -> Option<seq<IntfRec>>)
    requires Distinct(elems, ElemIdOf)
    ensures var t := Build(sites, Some(elems), images, fetch);
      (forall h :: h in t.elemHwidId ==> t.elemHwidId[h] in t.elemIdHwid && t.elemIdHwid[t.elemHwidId[h]] == h) &&
      (forall n :: n in t.elemNameId ==> t.elemNameId[n] in t.elemIdName && t.elemIdName[t.elemNameId[n]] == n)
  {
    forall h | h in Index(elems, ElemHwIdOf, ElemIdOf)
      ensures Index(elems, ElemHwIdOf, ElemIdOf)[h] in Index(elems, ElemIdOf, ElemHwIdOf)
      ensures Index(elems, ElemIdOf, ElemHwIdOf)[Index(elems, ElemHwIdOf, ElemIdOf)[h]] == h
    {
      IndexRoundTrip(elems, ElemIdOf, ElemHwIdOf, h);
    }
    forall n | n in Index(elems, ElemNameOf, ElemIdOf)
      ensures Index(elems, ElemNameOf, ElemIdOf)[n] in Index(elems, ElemIdOf, ElemNameOf)
      ensures Index(elems, ElemIdOf, ElemNameOf)[Index(elems, ElemNameOf, ElemIdOf)[n]] == n
    {
      IndexRoundTrip(elems, ElemIdOf, ElemNameOf, n);
    }
  }

  /** When site ids are distinct, name -> id -> name is the identity. */
  lemma BuildSiteRoundTrip(sites: seq<SiteRec>, elems: Option<seq<ElemRec>>, images: Option<seq<ImageRec>>,
                           fetch: (Json, string) -> Option<seq<IntfRec>>)
    requires Distinct(sites, SiteIdOf)
    ensures var t := Build(Some(sites), elems, images, fetch);
      forall n :: n in t.siteNameId ==> t.siteNameId[n] in t.siteIdName && t.siteIdName[t.siteNameId[n]] == n
  {
    forall n | n in Index(sites, SiteNameOf, SiteIdOf)
      ensures Index(sites, SiteNameOf, SiteIdOf)[n] in Index(sites, SiteIdOf, SiteNameOf)
      ensures Index(sites, SiteIdOf, SiteNameOf)[Index(sites, SiteNameOf, SiteIdOf)[n]] == n
    {
      IndexRoundTrip(sites, SiteIdOf, SiteNameOf, n);
    }
  }

  /** A version is in the released dictionary exactly when some image in
      state "release" has it, and in the unsupported one exactly when some
      image in another state has it. */
  lemma BuildImageBuckets(sites: Option<seq<SiteRec>>, elems: Option<seq<ElemRec>>, images: seq<ImageRec>,
                          fetch: (Json, string) -> Option<seq<IntfRec>>, v: string)
    ensures var t := Build(sites, elems, Some(images), fetch);
      (v in t.imageNameId <==> exists m :: m in images && m.state == "release" && m.version == v) &&
      (v in t.unsupportedNameId <==> exists m :: m in images && m.state != "release" && m.version == v)
  {
    BuildImageTables(sites, elems, images, fetch);
    var rel, uns := Released(images), Unsupported(images);
    IndexKeys(rel, ImageVersionOf, ImageIdOf, v);
    IndexKeys(uns, ImageVersionOf, ImageIdOf, v);
    if v in Index(rel, ImageVersionOf, ImageIdOf) {
      var i :| 0 <= i < |rel| && ImageVersionOf(rel[i]) == v;
      BucketsMembers(images, rel[i]);
    }
    if v in Index(uns, ImageVersionOf, ImageIdOf) {
      var i :| 0 <= i < |uns| && ImageVersionOf(uns[i]) == v;
      BucketsMembers(images, uns[i]);
    }
    if exists m :: m in images && m.state == "release" && m.version == v {
      var m :| m in images && m.state == "release" && m.version == v;
      BucketsMembers(images, m);
      var i :| 0 <= i < |rel| && rel[i] == m;
      assert ImageVersionOf(rel[i]) == v;
    }
    if exists m :: m in images && m.state != "release" && m.version == v {
      var m :| m in images && m.state != "release" && m.version == v;
      BucketsMembers(images, m);
      var i :| 0 <= i < |uns| && uns[i] == m;
      assert ImageVersionOf(uns[i]) == v;
    }
  }

  /** A released version maps to the id of the last image in state
      "release" that carries the version. */
  lemma BuildImageValue(sites: Option<seq<SiteRec>>, elems: Option<seq<ElemRec>>, images: seq<ImageRec>,
                        fetch: (Json, string) -> Option<seq<IntfRec>>, v: string)
    requires v in Build(sites, elems, Some(images), fetch).imageNameId
    ensures var t, rel := Build(sites, elems, Some(images), fetch), Released(images);
      exists i ::
          0 <= i < |rel| && rel[i] in images && rel[i].state == "release" && rel[i].version == v &&
          t.imageNameId[v] == rel[i].id && (forall j :: i < j < |rel| ==> rel[j].version != v)
  {
    BuildImageTables(sites, elems, images, fetch);
    var i := ReleasedValue(images, v);
  }

  /** The image tables of a build are the indexes of the two buckets. */
  lemma BuildImageTables(sites: Option<seq<SiteRec>>, elems: Option<seq<ElemRec>>, images: seq<ImageRec>,
                         fetch: (Json, string) -> Option<seq<IntfRec>>)
    ensures var t := Build(sites, elems, Some(images), fetch);
      t.imageNameId == Index(Released(images), ImageVersionOf, ImageIdOf) &&
      t.unsupportedNameId == Index(Unsupported(images), ImageVersionOf, ImageIdOf)
  {
    assert Items(Some(images)) == images;
  }

  /** The release image a version maps to: the last one of that version. */
  lemma ReleasedValue(images: seq<ImageRec>, v: string) returns (i: nat)
    requires v in Index(Released(images), ImageVersionOf, ImageIdOf)
    ensures var rel := Released(images);
      i < |rel| && rel[i] in images && rel[i].state == "release" && rel[i].version == v &&
      Index(rel, ImageVersionOf, ImageIdOf)[v] == rel[i].id && (forall j :: i < j < |rel| ==> rel[j].version != v)
  {
    var rel := Released(images);
    i := IndexFind(rel, ImageVersionOf, ImageIdOf, v);
    BucketsMembers(images, rel[i]);
    assert forall j :: i < j < |rel| ==> rel[j].version != v by {
      assert forall j :: i < j < |rel| ==> ImageVersionOf(rel[j]) != v;
    }
  }

  /** When the released images have distinct ids, version -> id -> version is
      the identity on the released versions. */
  lemma BuildImageRoundTrip(sites: Option<seq<SiteRec>>, elems: Option<seq<ElemRec>>, images: seq<ImageRec>,
                            fetch: (Json, string) -> Option<seq<IntfRec>>)
    requires Distinct(Released(images), ImageIdOf)
    ensures var t := Build(sites, elems, Some(images), fetch);
      forall v :: v in t.imageNameId ==> t.imageNameId[v] in t.imageIdName && t.imageIdName[t.imageNameId[v]] == v
  {
    var rel := Released(images);
    forall v | v in Index(rel, ImageVersionOf, ImageIdOf)
      ensures Index(rel, ImageVersionOf, ImageIdOf)[v] in Index(rel, ImageIdOf, ImageVersionOf)
      ensures Index(rel, ImageIdOf, ImageVersionOf)[Index(rel, ImageVersionOf, ImageIdOf)[v]] == v
    {
      IndexRoundTrip(rel, ImageIdOf, ImageVersionOf, v);
    }
  }

  /** `k` is the key of an interface fetched for element `e`. */
  ghost predicate KeyOfElement(e: ElemRec, fetch: (Json, string) -> Option<seq<IntfRec>>, byName: bool, k: IntfKey)
  {
    exists r :: r in ElemIntfs(e, fetch) && k == IntfKey(e.siteId, e.id, if byName then r.name else r.id)
  }

  lemma ElementKeys(e: ElemRec, fetch: (Json, string) -> Option<seq<IntfRec>>, byName: bool, k: IntfKey)
    ensures k in Index(ElemIntfs(e, fetch), ScopedKey(e.siteId, e.id, byName), IntfValOf(byName)) <==> KeyOfElement(e, fetch, byName, k)
  {
    var rs := ElemIntfs(e, fetch);
    IndexKeys(rs, ScopedKey(e.siteId, e.id, byName), IntfValOf(byName), k);
    if KeyOfElement(e, fetch, byName, k) {
      var r :| r in rs && k == IntfKey(e.siteId, e.id, if byName then r.name else r.id);
      var j :| 0 <= j < |rs| && rs[j] == r;
      assert ScopedKey(e.siteId, e.id, byName)(rs[j]) == k;
    }
  }

  /** The interface keys are exactly the (site, element id, interface name or
      id) of an interface fetched for some element; there are none for an
      element of the unassigned site. */
  lemma {:induction false} IntfIndexKeys(es: seq<ElemRec>, fetch: (Json, string) -> Option<seq<IntfRec>>, byName: bool, k: IntfKey)
    ensures k in IntfIndex(es, fetch, byName) <==> exists e :: e in es && KeyOfElement(e, fetch, byName, k)
    decreases |es|
  {
    if es != [] {
      var n := |es| - 1;
      var front, e := es[..n], es[n];
      var a, b := IntfIndex(front, fetch, byName), Index(ElemIntfs(e, fetch), ScopedKey(e.siteId, e.id, byName), IntfValOf(byName));
      assert IntfIndex(es, fetch, byName) == a + b;
      assert es == front + [e];
      IntfIndexKeys(front, fetch, byName, k);
      ElementKeys(e, fetch, byName, k);
      if k in b {
        assert e in es && KeyOfElement(e, fetch, byName, k);
      } else if k in a {
        var x :| x in front && KeyOfElement(x, fetch, byName, k);
        assert x in es;
      } else {
        forall x | x in es
          ensures !KeyOfElement(x, fetch, byName, k)
        {
          assert x == e || x in front;
        }
      }
    }
  }

  /** Every interface key holds the id (by name) or the name (by id) of an
      interface fetched for an element with that key's site and id. */
  lemma {:induction false} IntfIndexValue(es: seq<ElemRec>, fetch: (Json, string) -> Option<seq<IntfRec>>, byName: bool, k: IntfKey)
    requires k in IntfIndex(es, fetch, byName)
    ensures exists e, r ::
              e in es && r in ElemIntfs(e, fetch) &&
              k == IntfKey(e.siteId, e.id, if byName then r.name else r.id) &&
              IntfIndex(es, fetch, byName)[k] == (if byName then r.id else r.name)
    decreases |es|
  {
    var n := |es| - 1;
    var front, e := es[..n], es[n];
    var rs := ElemIntfs(e, fetch);
    if k in Index(rs, ScopedKey(e.siteId, e.id, byName), IntfValOf(byName)) {
      var j := IndexFind(rs, ScopedKey(e.siteId, e.id, byName), IntfValOf(byName), k);
      var r := rs[j];
      assert r in rs && e in es;
      assert ScopedKey(e.siteId, e.id, byName)(r) == k;
    } else {
      IntfIndexValue(front, fetch, byName, k);
      var e', r :| e' in front && r in ElemIntfs(e', fetch) &&
        k == IntfKey(e'.siteId, e'.id, if byName then r.name else r.id) &&
        IntfIndex(front, fetch, byName)[k] == (if byName then r.id else r.name);
      assert e' in es;
    }
  }

  /** After the build, `intf_name_id[(site, element, name)]` is the id of an
      interface called `name` fetched for an element with that site and id. */
  lemma BuildInterfaceValue(sites: Option<seq<SiteRec>>, elems: Option<seq<ElemRec>>, images: Option<seq<ImageRec>>,
                            fetch: (Json, string) -> Option<seq<IntfRec>>, k: IntfKey)
    requires k in Build(sites, elems, images, fetch).intfNameId
    ensures exists e, r ::
              e in Items(elems) && r in ElemIntfs(e, fetch) &&
              e.siteId == k.site && e.id == k.element && r.name == k.intf &&
              Build(sites, elems, images, fetch).intfNameId[k] == r.id
  {
    IntfIndexValue(Items(elems), fetch, true, k);
  }

  lemma UnassignedHasNoKeys(e: ElemRec, fetch: (Json, string) -> Option<seq<IntfRec>>, byName: bool, k: IntfKey)
    requires KeyOfElement(e, fetch, byName, k)
    ensures !Unassigned(k.site) && k.site == e.siteId && k.element == e.id
  {
  }

  /** No interface key carries the unassigned site. */
  lemma BuildInterfacesAssigned(sites: Option<seq<SiteRec>>, elems: Option<seq<ElemRec>>, images: Option<seq<ImageRec>>,
                                fetch: (Json, string) -> Option<seq<IntfRec>>, k: IntfKey)
    ensures var t := Build(sites, elems, images, fetch);
      (k in t.intfNameId ==> !Unassigned(k.site)) && (k in t.intfIdName ==> !Unassigned(k.site))
  {
    IntfIndexKeys(Items(elems), fetch, true, k);
    IntfIndexKeys(Items(elems), fetch, false, k);
    if exists e :: e in Items(elems) && KeyOfElement(e, fetch, true, k) {
      var e :| e in Items(elems) && KeyOfElement(e, fetch, true, k);
      UnassignedHasNoKeys(e, fetch, true, k);
    }
    if exists e :: e in Items(elems) && KeyOfElement(e, fetch, false, k) {
      var e :| e in Items(elems) && KeyOfElement(e, fetch, false, k);
      UnassignedHasNoKeys(e, fetch, false, k);
    }
  }

  // ---------------------------------------------------------------------------
  // The dictionaries as module state
  // ---------------------------------------------------------------------------

  class Catalog {
    var siteIdName: map<Json, string>
    var siteNameId: map<string, Json>
    var elemIdName: map<string, string>
    var elemNameId: map<string, string>
    var elemIdHwid: map<string, string>
    var elemHwidId: map<string, string>
    var hwidSid: map<string, Json>
    var elemidSid: map<string, Json>
    var intfIdName: map<IntfKey, string>
    var intfNameId: map<IntfKey, string>
    var imageIdName: map<string, string>
    var imageNameId: map<string, string>
    var unsupportedIdName: map<string, string>
    var unsupportedNameId: map<string, string>

    function View(): Tables
      reads this
    {
      Tables(siteIdName, siteNameId, elemIdName, elemNameId, elemIdHwid, elemHwidId, hwidSid, elemidSid,
             intfIdName, intfNameId, imageIdName, imageNameId, unsupportedIdName, unsupportedNameId)
    }

    /** The dictionaries as the module defines them: all empty. */
    constructor ()
      ensures View() == Empty()
    {
      siteIdName, siteNameId := map[], map[];
      elemIdName, elemNameId, elemIdHwid, elemHwidId := map[], map[], map[], map[];
      hwidSid, elemidSid := map[], map[];
      intfIdName, intfNameId := map[], map[];
      imageIdName, imageNameId := map[], map[];
      unsupportedIdName, unsupportedNameId := map[], map[];
    }

    /** Fetch the three inventories and fill the dictionaries. A failed fetch
        prints an error and leaves its family of dictionaries as it was; the
        build goes on with the next fetch. */
    method CreateDicts(sites: Option<seq<SiteRec>>, elems: Option<seq<ElemRec>>, images: Option<seq<ImageRec>>,
                       fetch: (Json, string) -> Option<seq<IntfRec>>)
      returns (errors: seq<BuildError>, calls: seq<Call>)
      modifies this
      ensures View() == old(View()).Override(Build(sites, elems, images, fetch))
      ensures errors == BuildErrors(sites, elems, images)
      ensures calls == BuildCalls(elems)
    {
      var siteErrors := SitesSection(sites);
      var elemErrors, queries := ElementsSection(elems, fetch);
      var imageErrors := ImagesSection(images);
      OverrideFields(old(View()), Build(sites, elems, images, fetch), View());
      errors := siteErrors + elemErrors + imageErrors;
      calls := [GetSites, GetElements] + queries + [GetElementImages];
    }

    /** The sites section: the site loop when the fetch succeeded, else an
        error line. */
    method SitesSection(sites: Option<seq<SiteRec>>) returns (errors: seq<BuildError>)
      modifies this`siteIdName, this`siteNameId
      ensures siteIdName == old(siteIdName) + Index(Items(sites), SiteIdOf, SiteNameOf)
      ensures siteNameId == old(siteNameId) + Index(Items(sites), SiteNameOf, SiteIdOf)
      ensures errors == if sites.None? then [SitesNotRetrieved] else []
    {
      if sites.Some? {
        LoadSites(sites.value);
        errors := [];
      } else {
        errors := [SitesNotRetrieved];
        OverrideEmpty(siteIdName);
        OverrideEmpty(siteNameId);
      }
    }

    /** The elements-and-interfaces section. */
    method ElementsSection(elems: Option<seq<ElemRec>>, fetch: (Json, string) -> Option<seq<IntfRec>>)
      returns (errors: seq<BuildError>, queries: seq<Call>)
      modifies this`elemIdName, this`elemNameId, this`elemIdHwid, this`elemHwidId, this`hwidSid, this`elemidSid,
               this`intfIdName, this`intfNameId
      ensures elemIdName == old(elemIdName) + Index(Items(elems), ElemIdOf, ElemNameOf)
      ensures elemNameId == old(elemNameId) + Index(Items(elems), ElemNameOf, ElemIdOf)
      ensures elemIdHwid == old(elemIdHwid) + Index(Items(elems), ElemIdOf, ElemHwIdOf)
      ensures elemHwidId == old(elemHwidId) + Index(Items(elems), ElemHwIdOf, ElemIdOf)
      ensures hwidSid == old(hwidSid) + Index(Items(elems), ElemHwIdOf, ElemSiteOf)
      ensures elemidSid == old(elemidSid) + Index(Items(elems), ElemIdOf, ElemSiteOf)
      ensures intfIdName == old(intfIdName) + IntfIndex(Items(elems), fetch, false)
      ensures intfNameId == old(intfNameId) + IntfIndex(Items(elems), fetch, true)
      ensures queries == IntfQueries(Items(elems))
      ensures errors == if elems.None? then [ElementsNotRetrieved] else []
    {
      if elems.Some? {
        queries := LoadElements(elems.value, fetch);
        errors := [];
      } else {
        errors, queries := [ElementsNotRetrieved], [];
        OverrideEmpty(elemIdName);
        OverrideEmpty(elemNameId);
        OverrideEmpty(elemIdHwid);
        OverrideEmpty(elemHwidId);
        OverrideEmpty(hwidSid);
        OverrideEmpty(elemidSid);
        OverrideEmpty(intfIdName);
        OverrideEmpty(intfNameId);
      }
    }

    /** The element-images section. */
    method ImagesSection(images: Option<seq<ImageRec>>) returns (errors: seq<BuildError>)
      modifies this`imageIdName, this`imageNameId, this`unsupportedIdName, this`unsupportedNameId
      ensures imageIdName == old(imageIdName) + Index(Released(Items(images)), ImageIdOf, ImageVersionOf)
      ensures imageNameId == old(imageNameId) + Index(Released(Items(images)), ImageVersionOf, ImageIdOf)
      ensures unsupportedIdName == old(unsupportedIdName) + Index(Unsupported(Items(images)), ImageIdOf, ImageVersionOf)
      ensures unsupportedNameId == old(unsupportedNameId) + Index(Unsupported(Items(images)), ImageVersionOf, ImageIdOf)
      ensures errors == if images.None? then [ImagesNotRetrieved] else []
    {
      if images.Some? {
        LoadImages(images.value);
        errors := [];
      } else {
        errors := [ImagesNotRetrieved];
        OverrideEmpty(imageIdName);
        OverrideEmpty(imageNameId);
        OverrideEmpty(unsupportedIdName);
        OverrideEmpty(unsupportedNameId);
      }
    }

    /** The site loop: id -> name and name -> id. */
    method LoadSites(ss: seq<SiteRec>)
      modifies this`siteIdName, this`siteNameId
      ensures siteIdName == old(siteIdName) + Index(ss, SiteIdOf, SiteNameOf)
      ensures siteNameId == old(siteNameId) + Index(ss, SiteNameOf, SiteIdOf)
    {
      var i := 0;
      while i < |ss|
        invariant 0 <= i <= |ss|
        invariant siteIdName == old(siteIdName) + Index(ss[..i], SiteIdOf, SiteNameOf)
        invariant siteNameId == old(siteNameId) + Index(ss[..i], SiteNameOf, SiteIdOf)
      {
        var site := ss[i];
        IndexSnoc(ss, i, SiteIdOf, SiteNameOf);
        IndexSnoc(ss, i, SiteNameOf, SiteIdOf);
        OverrideUpdate(old(siteIdName), Index(ss[..i], SiteIdOf, SiteNameOf), site.id, site.name);
        OverrideUpdate(old(siteNameId), Index(ss[..i], SiteNameOf, SiteIdOf), site.name, site.id);
        siteIdName := siteIdName[site.id := site.name];
        siteNameId := siteNameId[site.name := site.id];
        i := i + 1;
      }
      assert ss[..|ss|] == ss;
    }

    /** The element loop: six element dictionaries for every element, and an
        interface query for every element outside the unassigned site. */
    method LoadElements(es: seq<ElemRec>, fetch: (Json, string) -> Option<seq<IntfRec>>) returns (queries: seq<Call>)
      modifies this`elemIdName, this`elemNameId, this`elemIdHwid, this`elemHwidId, this`hwidSid, this`elemidSid,
               this`intfIdName, this`intfNameId
      ensures elemIdName == old(elemIdName) + Index(es, ElemIdOf, ElemNameOf)
      ensures elemNameId == old(elemNameId) + Index(es, ElemNameOf, ElemIdOf)
      ensures elemIdHwid == old(elemIdHwid) + Index(es, ElemIdOf, ElemHwIdOf)
      ensures elemHwidId == old(elemHwidId) + Index(es, ElemHwIdOf, ElemIdOf)
      ensures hwidSid == old(hwidSid) + Index(es, ElemHwIdOf, ElemSiteOf)
      ensures elemidSid == old(elemidSid) + Index(es, ElemIdOf, ElemSiteOf)
      ensures intfIdName == old(intfIdName) + IntfIndex(es, fetch, false)
      ensures intfNameId == old(intfNameId) + IntfIndex(es, fetch, true)
      ensures queries == IntfQueries(es)
    {
      queries := [];
      var i := 0;
      while i < |es|
        invariant 0 <= i <= |es|
        invariant elemIdName == old(elemIdName) + Index(es[..i], ElemIdOf, ElemNameOf)
        invariant elemNameId == old(elemNameId) + Index(es[..i], ElemNameOf, ElemIdOf)
        invariant elemIdHwid == old(elemIdHwid) + Index(es[..i], ElemIdOf, ElemHwIdOf)
        invariant elemHwidId == old(elemHwidId) + Index(es[..i], ElemHwIdOf, ElemIdOf)
        invariant hwidSid == old(hwidSid) + Index(es[..i], ElemHwIdOf, ElemSiteOf)
        invariant elemidSid == old(elemidSid) + Index(es[..i], ElemIdOf, ElemSiteOf)
        invariant intfIdName == old(intfIdName) + IntfIndex(es[..i], fetch, false)
        invariant intfNameId == old(intfNameId) + IntfIndex(es[..i], fetch, true)
        invariant queries == IntfQueries(es[..i])
      {
        AddElement(es, i, old(elemIdName), old(elemNameId), old(elemIdHwid), old(elemHwidId), old(hwidSid), old(elemidSid));
        var q := AddInterfaces(es, i, fetch, old(intfIdName), old(intfNameId));
        IntfQueriesSnoc(es, i);
        queries := queries + q;
        i := i + 1;
      }
      assert es[..|es|] == es;
    }

    /** The interface half of the element loop for es[i], into dictionaries
        that held `base...` plus the interfaces of the elements before es[i]. */
    method AddInterfaces(es: seq<ElemRec>, i: nat, fetch: (Json, string) -> Option<seq<IntfRec>>,
                         ghost baseIdName: map<IntfKey, string>, ghost baseNameId: map<IntfKey, string>)
      returns (q: seq<Call>)
      requires i < |es|
      requires intfIdName == baseIdName + IntfIndex(es[..i], fetch, false)
      requires intfNameId == baseNameId + IntfIndex(es[..i], fetch, true)
      modifies this`intfIdName, this`intfNameId
      ensures intfIdName == baseIdName + IntfIndex(es[..i + 1], fetch, false)
      ensures intfNameId == baseNameId + IntfIndex(es[..i + 1], fetch, true)
      ensures q == if Unassigned(es[i].siteId) then [] else [GetInterfaces(es[i].siteId, es[i].id)]
    {
      var elem := es[i];
      IntfIndexSnoc(es, i, fetch, false);
      IntfIndexSnoc(es, i, fetch, true);
      OverrideAssoc(baseIdName, IntfIndex(es[..i], fetch, false),
                    Index(ElemIntfs(elem, fetch), ScopedKey(elem.siteId, elem.id, false), IntfValOf(false)));
      OverrideAssoc(baseNameId, IntfIndex(es[..i], fetch, true),
                    Index(ElemIntfs(elem, fetch), ScopedKey(elem.siteId, elem.id, true), IntfValOf(true)));
      q := QueryInterfaces(elem, fetch);
    }

    /** The six element assignments of the element loop for es[i], into
        dictionaries that held `base...` plus the records before es[i]. */
    method AddElement(es: seq<ElemRec>, i: nat, ghost baseIdName: map<string, string>, ghost baseNameId: map<string, string>,
                      ghost baseIdHwid: map<string, string>, ghost baseHwidId: map<string, string>,
                      ghost baseHwidSid: map<string, Json>, ghost baseIdSid: map<string, Json>)
      requires i < |es|
      requires elemIdName == baseIdName + Index(es[..i], ElemIdOf, ElemNameOf)
      requires elemNameId == baseNameId + Index(es[..i], ElemNameOf, ElemIdOf)
      requires elemIdHwid == baseIdHwid + Index(es[..i], ElemIdOf, ElemHwIdOf)
      requires elemHwidId == baseHwidId + Index(es[..i], ElemHwIdOf, ElemIdOf)
      requires hwidSid == baseHwidSid + Index(es[..i], ElemHwIdOf, ElemSiteOf)
      requires elemidSid == baseIdSid + Index(es[..i], ElemIdOf, ElemSiteOf)
      modifies this`elemIdName, this`elemNameId, this`elemIdHwid, this`elemHwidId, this`hwidSid, this`elemidSid
      ensures elemIdName == baseIdName + Index(es[..i + 1], ElemIdOf, ElemNameOf)
      ensures elemNameId == baseNameId + Index(es[..i + 1], ElemNameOf, ElemIdOf)
      ensures elemIdHwid == baseIdHwid + Index(es[..i + 1], ElemIdOf, ElemHwIdOf)
      ensures elemHwidId == baseHwidId + Index(es[..i + 1], ElemHwIdOf, ElemIdOf)
      ensures hwidSid == baseHwidSid + Index(es[..i + 1], ElemHwIdOf, ElemSiteOf)
      ensures elemidSid == baseIdSid + Index(es[..i + 1], ElemIdOf, ElemSiteOf)
    {
      var elem := es[i];
      var sid := elem.siteId;
      OverrideStep(baseIdName, es, i, ElemIdOf, ElemNameOf);
      OverrideStep(baseNameId, es, i, ElemNameOf, ElemIdOf);
      OverrideStep(baseIdHwid, es, i, ElemIdOf, ElemHwIdOf);
      OverrideStep(baseHwidId, es, i, ElemHwIdOf, ElemIdOf);
      OverrideStep(baseHwidSid, es, i, ElemHwIdOf, ElemSiteOf);
      OverrideStep(baseIdSid, es, i, ElemIdOf, ElemSiteOf);
      elemIdName := elemIdName[elem.id := elem.name];
      elemNameId := elemNameId[elem.name := elem.id];
      elemIdHwid := elemIdHwid[elem.id := elem.hwId];
      elemHwidId := elemHwidId[elem.hwId := elem.id];
      hwidSid := hwidSid[elem.hwId := sid];
      elemidSid := elemidSid[elem.id := sid];
    }

    /** The interface half of one pass of the element loop: an element
        outside the unassigned site has its interfaces queried and loaded. */
    method QueryInterfaces(elem: ElemRec, fetch: (Json, string) -> Option<seq<IntfRec>>) returns (q: seq<Call>)
      modifies this`intfIdName, this`intfNameId
      ensures intfIdName == old(intfIdName) + Index(ElemIntfs(elem, fetch), ScopedKey(elem.siteId, elem.id, false), IntfValOf(false))
      ensures intfNameId == old(intfNameId) + Index(ElemIntfs(elem, fetch), ScopedKey(elem.siteId, elem.id, true), IntfValOf(true))
      ensures q == if Unassigned(elem.siteId) then [] else [GetInterfaces(elem.siteId, elem.id)]
    {
      var sid := elem.siteId;
      if Unassigned(sid) {
        q := [];
        OverrideEmpty(intfIdName);
        OverrideEmpty(intfNameId);
      } else {
        var resp := fetch(sid, elem.id);
        q := [GetInterfaces(sid, elem.id)];
        LoadInterfaces(sid, elem.id, Items(resp));
      }
    }

    /** The interface loop for one element; a failed query gives no interfaces. */
    method LoadInterfaces(sid: Json, eid: string, intfs: seq<IntfRec>)
      modifies this`intfIdName, this`intfNameId
      ensures intfIdName == old(intfIdName) + Index(intfs, ScopedKey(sid, eid, false), IntfValOf(false))
      ensures intfNameId == old(intfNameId) + Index(intfs, ScopedKey(sid, eid, true), IntfValOf(true))
    {
      var j := 0;
      while j < |intfs|
        invariant 0 <= j <= |intfs|
        invariant intfIdName == old(intfIdName) + Index(intfs[..j], ScopedKey(sid, eid, false), IntfValOf(false))
        invariant intfNameId == old(intfNameId) + Index(intfs[..j], ScopedKey(sid, eid, true), IntfValOf(true))
      {
        var intf := intfs[j];
        IndexSnoc(intfs, j, ScopedKey(sid, eid, false), IntfValOf(false));
        IndexSnoc(intfs, j, ScopedKey(sid, eid, true), IntfValOf(true));
        OverrideUpdate(old(intfIdName), Index(intfs[..j], ScopedKey(sid, eid, false), IntfValOf(false)),
                       IntfKey(sid, eid, intf.id), intf.name);
        OverrideUpdate(old(intfNameId), Index(intfs[..j], ScopedKey(sid, eid, true), IntfValOf(true)),
                       IntfKey(sid, eid, intf.name), intf.id);
        intfIdName := intfIdName[IntfKey(sid, eid, intf.id) := intf.name];
        intfNameId := intfNameId[IntfKey(sid, eid, intf.name) := intf.id];
        j := j + 1;
      }
      assert intfs[..|intfs|] == intfs;
    }

    /** The image loop: images in state "release" go to the released pair of
        dictionaries, all others to the unsupported pair. */
    method LoadImages(ms: seq<ImageRec>)
      modifies this`imageIdName, this`imageNameId, this`unsupportedIdName, this`unsupportedNameId
      ensures imageIdName == old(imageIdName) + Index(Released(ms), ImageIdOf, ImageVersionOf)
      ensures imageNameId == old(imageNameId) + Index(Released(ms), ImageVersionOf, ImageIdOf)
      ensures unsupportedIdName == old(unsupportedIdName) + Index(Unsupported(ms), ImageIdOf, ImageVersionOf)
      ensures unsupportedNameId == old(unsupportedNameId) + Index(Unsupported(ms), ImageVersionOf, ImageIdOf)
    {
      var i := 0;
      while i < |ms|
        invariant 0 <= i <= |ms|
        invariant imageIdName == old(imageIdName) + Index(Released(ms[..i]), ImageIdOf, ImageVersionOf)
        invariant imageNameId == old(imageNameId) + Index(Released(ms[..i]), ImageVersionOf, ImageIdOf)
        invariant unsupportedIdName == old(unsupportedIdName) + Index(Unsupported(ms[..i]), ImageIdOf, ImageVersionOf)
        invariant unsupportedNameId == old(unsupportedNameId) + Index(Unsupported(ms[..i]), ImageVersionOf, ImageIdOf)
      {
        BucketsSnoc(ms, i);
        AddImage(ms[i], Released(ms[..i]), Unsupported(ms[..i]),
                 old(imageIdName), old(imageNameId), old(unsupportedIdName), old(unsupportedNameId));
        i := i + 1;
      }
      assert ms[..|ms|] == ms;
    }

    /** One pass of the image loop, into dictionaries that held `base...`
        plus the buckets `rel` and `uns` so far. */
    method AddImage(image: ImageRec, ghost rel: seq<ImageRec>, ghost uns: seq<ImageRec>,
                    ghost baseIdName: map<string, string>, ghost baseNameId: map<string, string>,
                    ghost baseUnsIdName: map<string, string>, ghost baseUnsNameId: map<string, string>)
      requires imageIdName == baseIdName + Index(rel, ImageIdOf, ImageVersionOf)
      requires imageNameId == baseNameId + Index(rel, ImageVersionOf, ImageIdOf)
      requires unsupportedIdName == baseUnsIdName + Index(uns, ImageIdOf, ImageVersionOf)
      requires unsupportedNameId == baseUnsNameId + Index(uns, ImageVersionOf, ImageIdOf)
      modifies this`imageIdName, this`imageNameId, this`unsupportedIdName, this`unsupportedNameId
      ensures var rel', uns' := rel + (if image.state == "release" then [image] else []),
                                uns + (if image.state != "release" then [image] else []);
        imageIdName == baseIdName + Index(rel', ImageIdOf, ImageVersionOf) &&
        imageNameId == baseNameId + Index(rel', ImageVersionOf, ImageIdOf) &&
        unsupportedIdName == baseUnsIdName + Index(uns', ImageIdOf, ImageVersionOf) &&
        unsupportedNameId == baseUnsNameId + Index(uns', ImageVersionOf, ImageIdOf)
    {
      if image.state == "release" {
        Appended(baseIdName, rel, image, ImageIdOf, ImageVersionOf);
        Appended(baseNameId, rel, image, ImageVersionOf, ImageIdOf);
        imageIdName := imageIdName[image.id := image.version];
        imageNameId := imageNameId[image.version := image.id];
        assert uns + [] == uns;
      } else {
        Appended(baseUnsIdName, uns, image, ImageIdOf, ImageVersionOf);
        Appended(baseUnsNameId, uns, image, ImageVersionOf, ImageIdOf);
        unsupportedIdName := unsupportedIdName[image.id := image.version];
        unsupportedNameId := unsupportedNameId[image.version := image.id];
        assert rel + [] == rel;
      }
    }
  }
}
