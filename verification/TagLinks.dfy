/** `link_external_tags`: which sibling field is the external tag of each tagged payload. */
module TagLinks {
  import opened Schemas

  /** A normalised field identifier. */
  datatype Ident = Ident(text: string)

  /** A tagged payload with the `tag_field` it asks for, another path field, or anything else. */
  datatype Shape = Tagged(wanted: Ident) | Path | Other

  datatype Entry = Entry(name: Ident, shape: Shape)

  /** The fields of one struct have different names. */
  predicate DistinctNames(fields: seq<Entry>) {
    forall i, j :: 0 <= i < j < |fields| ==> fields[i].name != fields[j].name
  }

  /** Field `t` can be the tag of payload `i`. */
  predicate Fit(fields: seq<Entry>, i: nat, t: nat)
    requires i < |fields| && fields[i].shape.Tagged?
  {
    t < |fields| && t != i && fields[t].name == fields[i].shape.wanted && fields[t].shape.Path?
  }

  /** Payload `i` has a tag, and no payload before it asks for the same. */
  ghost predicate Linkable(fields: seq<Entry>, i: nat)
    requires i < |fields| && fields[i].shape.Tagged?
  {
    && (exists t :: Fit(fields, i, t))
    && (forall j :: 0 <= j < i && fields[j].shape.Tagged? ==> fields[j].shape.wanted != fields[i].shape.wanted)
  }

  /** The links assigned so far: each payload to its own tag. */
  ghost predicate Linked(fields: seq<Entry>, links: map<nat, nat>, n: nat) {
    && n <= |fields|
    && (forall i :: i in links <==> 0 <= i < n && fields[i].shape.Tagged?)
    && (forall i :: i in links ==> Fit(fields, i, links[i]))
    && (forall i, j :: i in links && j in links && i != j ==> links[i] != links[j])
  }

  method Lookup(fields: seq<Entry>) returns (lookup: map<Ident, nat>)
    requires DistinctNames(fields)
    ensures forall s :: s in lookup ==> lookup[s] < |fields| && fields[lookup[s]].name == s
    ensures forall k :: 0 <= k < |fields| ==> fields[k].name in lookup && lookup[fields[k].name] == k
  {
    lookup := map[];
    for i := 0 to |fields|
      invariant forall s :: s in lookup ==> lookup[s] < i && fields[lookup[s]].name == s
      invariant forall k :: 0 <= k < i ==> fields[k].name in lookup && lookup[fields[k].name] == k
    {
      lookup := lookup[fields[i].name := i];
    }
  }

  lemma LinkableExactly(fields: seq<Entry>)
    ensures (forall i :: 0 <= i < |fields| && fields[i].shape.Tagged? ==> Linkable(fields, i)) <==>
      && (forall i :: 0 <= i < |fields| && fields[i].shape.Tagged? ==>
            exists t :: 0 <= t < |fields| && fields[t] == Entry(fields[i].shape.wanted, Path))
      && (forall i, j :: 0 <= i < j < |fields| && fields[i].shape.Tagged? && fields[j].shape.Tagged? ==>
            fields[i].shape.wanted != fields[j].shape.wanted)
  {
    forall i | 0 <= i < |fields| && fields[i].shape.Tagged?
      ensures (exists t :: Fit(fields, i, t)) <==>
        exists t :: 0 <= t < |fields| && fields[t] == Entry(fields[i].shape.wanted, Path)
    {
      FitExactly(fields, i);
    }
  }

  lemma FitExactly(fields: seq<Entry>, i: nat)
    requires i < |fields| && fields[i].shape.Tagged?
    ensures (exists t :: Fit(fields, i, t)) <==>
      exists t :: 0 <= t < |fields| && fields[t] == Entry(fields[i].shape.wanted, Path)
  {
    forall t: nat ensures Fit(fields, i, t) <==> t < |fields| && fields[t] == Entry(fields[i].shape.wanted, Path) {}
  }

  lemma LinkedMeans(fields: seq<Entry>, links: map<nat, nat>)
    requires Linked(fields, links, |fields|)
    ensures forall i :: 0 <= i < |fields| && fields[i].shape.Tagged? ==>
      i in links && links[i] < |fields| && fields[links[i]] == Entry(fields[i].shape.wanted, Path)
  {
    forall i | 0 <= i < |fields| && fields[i].shape.Tagged?
      ensures i in links && links[i] < |fields| && fields[links[i]] == Entry(fields[i].shape.wanted, Path)
    {
      assert Fit(fields, i, links[i]);
    }
  }

  lemma ClaimedTwice(fields: seq<Entry>, links: map<nat, nat>, i: nat, j: nat)
    requires i < |fields| && fields[i].shape.Tagged? && Linked(fields, links, i) && j in links &&
      Fit(fields, i, links[j])
    ensures !Linkable(fields, i)
  {
    assert Fit(fields, j, links[j]);
  }

  lemma LinkStep(fields: seq<Entry>, links: map<nat, nat>, i: nat, t: nat)
    requires DistinctNames(fields) && i < |fields| && fields[i].shape.Tagged? && Linked(fields, links, i) &&
      Fit(fields, i, t)
    requires forall j :: j in links ==> links[j] != t
    ensures Linkable(fields, i) && Linked(fields, links[i := t], i + 1)
  {
    forall j | 0 <= j < i && fields[j].shape.Tagged? ensures fields[j].shape.wanted != fields[i].shape.wanted {
      assert j in links && Fit(fields, j, links[j]);
    }
  }

  /** Every payload is linked to the sibling it names, no two to the same one, or the declaration is
      rejected; it is rejected exactly when some payload names no path sibling or one that another names. */
  method LinkExternalTags(fields: seq<Entry>) returns (ok: bool, links: map<nat, nat>)
    requires DistinctNames(fields)
    ensures ok <==>
      && (forall i :: 0 <= i < |fields| && fields[i].shape.Tagged? ==>
            exists t :: 0 <= t < |fields| && fields[t] == Entry(fields[i].shape.wanted, Path))
      && (forall i, j :: 0 <= i < j < |fields| && fields[i].shape.Tagged? && fields[j].shape.Tagged? ==>
            fields[i].shape.wanted != fields[j].shape.wanted)
    ensures ok ==> Linked(fields, links, |fields|)
    ensures ok ==> forall i :: 0 <= i < |fields| && fields[i].shape.Tagged? ==>
      i in links && links[i] < |fields| && fields[links[i]] == Entry(fields[i].shape.wanted, Path)
  {
    hide Linkable, Linked;
    ok, links := AssignLinks(fields);
    LinkableExactly(fields);
    if ok { LinkedMeans(fields, links); }
  }

  /** The loop: payloads in declaration order, each claiming the field its name looks up. */
  method AssignLinks(fields: seq<Entry>) returns (ok: bool, links: map<nat, nat>)
    requires DistinctNames(fields)
    ensures ok <==> forall i :: 0 <= i < |fields| && fields[i].shape.Tagged? ==> Linkable(fields, i)
    ensures ok ==> Linked(fields, links, |fields|)
  {
    var lookup := Lookup(fields);
    var claimed: set<nat> := {};
    links := map[];
    for i := 0 to |fields|
      invariant Linked(fields, links, i)
      invariant forall t :: t in claimed <==> exists j :: j in links && links[j] == t
      invariant forall k :: 0 <= k < i && fields[k].shape.Tagged? ==> Linkable(fields, k)
    {
      if fields[i].shape.Tagged? {
        var wanted := fields[i].shape.wanted;
        if wanted !in lookup { return false, links; }
        var t := lookup[wanted];
        if t == i { return false, links; }
        if !fields[t].shape.Path? { return false, links; }
        assert Fit(fields, i, t);
        if t in claimed {
          ghost var j :| j in links && links[j] == t;
          ClaimedTwice(fields, links, i, j);
          return false, links;
        }
        LinkStep(fields, links, i, t);
        claimed := claimed + {t};
        links := links[i := t];
      }
    }
    ok := true;
  }

  /** The schema field `f` comes from the declared entry `e`. */
  predicate From(f: Field, e: Entry) {
    (f.kind.Payload? <==> e.shape.Tagged?) && (e.shape.Path? ==> f.kind.Own?)
  }

  /** What linking gives a schema: the tag of a payload exists, is another, ordinary field and is claimed by
      that payload alone. What remains of a linked tag is checked of types: it is a scalar enum, it has
      the discriminants the variants name, and no two variants name the same. */
  lemma LinkedIsTagLinked(entries: seq<Entry>, links: map<nat, nat>, fields: seq<Field>, i: nat)
    requires Linked(entries, links, |entries|) && |fields| == |entries| && i < |fields| && fields[i].kind.Payload?
    requires forall k :: 0 <= k < |fields| ==> From(fields[k], entries[k])
    requires forall k :: 0 <= k < |fields| && fields[k].kind.Payload? ==> k in links && fields[k].kind.tag == links[k]
    ensures var t := fields[i].kind.tag;
      && t < |fields| && t != i && fields[t].kind.Own?
      && (forall k :: 0 <= k < |fields| && k != i && fields[k].kind.Payload? ==> fields[k].kind.tag != t)
    ensures TagLinked(fields, i) <==>
      var Payload(t, arms) := fields[i].kind;
      && fields[t].kind.s.Atom? && fields[t].kind.s.leaf.Enum? && DistinctArms(arms)
      && forall j :: 0 <= j < |arms| ==> arms[j].disc in fields[t].kind.s.leaf.discs
  {
    var t := links[i];
    assert Fit(entries, i, t);
    assert From(fields[t], entries[t]);
  }
}
