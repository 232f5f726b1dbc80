/** Distinguished names, their builders, and the way to an X.509 name and back. */
module DistinguishedName {
  import opened Bytes

  datatype Nid =
    | CommonName | CountryName | LocalityName | StateOrProvinceName | OrganizationalUnitName | OrganizationName
    | Pkcs9EmailAddress | SerialNumber | GivenName | UserId | Title

  datatype Attribute = Attribute(id: Nid, name: string)

  datatype Name = Name(attributes: seq<Attribute>, customAttributeOrder: bool)

  /** An X509_NAME: entries in order. */
  type X509Name = seq<Attribute>

  datatype Error = CountryNameTooLong

  /** The order in which names without an order of their own are written, and in which names are read back. */
  const ORDER: seq<Nid> := [
    CommonName, CountryName, LocalityName, StateOrProvinceName, OrganizationalUnitName, OrganizationName,
    Pkcs9EmailAddress, SerialNumber, GivenName, UserId, Title]

  lemma OrderIsComplete(id: Nid)
    ensures id in ORDER
  {
    match id
    case CommonName => assert ORDER[0] == id;
    case CountryName => assert ORDER[1] == id;
    case LocalityName => assert ORDER[2] == id;
    case StateOrProvinceName => assert ORDER[3] == id;
    case OrganizationalUnitName => assert ORDER[4] == id;
    case OrganizationName => assert ORDER[5] == id;
    case Pkcs9EmailAddress => assert ORDER[6] == id;
    case SerialNumber => assert ORDER[7] == id;
    case GivenName => assert ORDER[8] == id;
    case UserId => assert ORDER[9] == id;
    case Title => assert ORDER[10] == id;
  }

  // ---- lookups ----

  /** `_getAttributeByNID`: the last attribute with the id. */
  function Lookup(attributes: seq<Attribute>, id: Nid): Option<Attribute> {
    if attributes == [] then None
    else if attributes[|attributes| - 1].id == id then Some(attributes[|attributes| - 1])
    else Lookup(attributes[..|attributes| - 1], id)
  }

  /** `_getAttributeByNIDAsString` */
  function Get(attributes: seq<Attribute>, id: Nid): string {
    match Lookup(attributes, id) case None => "" case Some(a) => a.name
  }

  /** `_X509_NAME_get_index_by_NID`: all positions of an id, by searching on from the last one found. */
  function Indices(x: X509Name, id: Nid, from: nat): (r: seq<nat>)
    decreases |x| - from
  {
    if from >= |x| then []
    else if x[from].id == id then [from] + Indices(x, id, from + 1)
    else Indices(x, id, from + 1)
  }

  function NextIndex(x: X509Name, id: Nid, from: nat): (r: Option<nat>)
    ensures r.Some? ==> from <= r.value < |x|
    decreases |x| - from
  {
    if from >= |x| then None else if x[from].id == id then Some(from) else NextIndex(x, id, from + 1)
  }

  /** The positions from a search result on. */
  function IndicesFrom(x: X509Name, id: Nid, found: Option<nat>): seq<nat> {
    match found case None => [] case Some(at) => [at] + Indices(x, id, at + 1)
  }

  lemma {:induction false} IndicesStep(x: X509Name, id: Nid, from: nat)
    ensures IndicesFrom(x, id, NextIndex(x, id, from)) == Indices(x, id, from)
    decreases |x| - from
  {
    if from < |x| && x[from].id != id {
      IndicesStep(x, id, from + 1);
    }
  }

  method GetIndexByNid(name: X509Name, nid: Nid) returns (result: seq<nat>)
    ensures result == Indices(name, nid, 0)
  {
    result := [];
    var rv := NextIndex(name, nid, 0);
    IndicesStep(name, nid, 0);
    while rv.Some?
      invariant rv.Some? ==> rv.value < |name|
      invariant result + IndicesFrom(name, nid, rv) == Indices(name, nid, 0)
      decreases if rv.Some? then |name| - rv.value else 0
    {
      var at := rv.value;
      Associative(result, [at], Indices(name, nid, at + 1));
      IndicesStep(name, nid, at + 1);
      result := result + [at];
      rv := NextIndex(name, nid, at + 1);
    }
  }

  /** `_getEntryByNIDAsString`: the first entry with the id. */
  function Entry(x: X509Name, id: Nid): string {
    var indices := Indices(x, id, 0);
    IndicesInRange(x, id, 0);
    if indices == [] then "" else x[indices[0]].name
  }

  lemma {:induction false} IndicesInRange(x: X509Name, id: Nid, from: nat)
    ensures forall i :: 0 <= i < |Indices(x, id, from)| ==>
              from <= Indices(x, id, from)[i] < |x| && x[Indices(x, id, from)[i]].id == id
    ensures Indices(x, id, from) == [] <==> forall j :: from <= j < |x| ==> x[j].id != id
    ensures Indices(x, id, from) != [] ==> forall j :: from <= j < Indices(x, id, from)[0] ==> x[j].id != id
    decreases |x| - from
  {
    if from < |x| {
      IndicesInRange(x, id, from + 1);
    }
  }

  /** The positions increase, and every position with the id is among them. */
  lemma {:induction false} IndicesAreAll(x: X509Name, id: Nid, from: nat)
    ensures forall i, j :: 0 <= i < j < |Indices(x, id, from)| ==> Indices(x, id, from)[i] < Indices(x, id, from)[j]
    ensures forall k: nat :: k in Indices(x, id, from) <==> from <= k < |x| && x[k].id == id
    decreases |x| - from
  {
    if from < |x| {
      IndicesAreAll(x, id, from + 1);
      IndicesInRange(x, id, from + 1);
    }
  }

  // ---- to an X.509 name and back ----

  /** `_addString` */
  function AddString(x: X509Name, attribute: Option<Attribute>): X509Name {
    match attribute
    case None => x
    case Some(a) => if a.name == "" then x else x + [a]
  }

  function AddAll(x: X509Name, attributes: seq<Attribute>): X509Name
    decreases |attributes|
  {
    if attributes == [] then x else AddAll(AddString(x, Some(attributes[0])), attributes[1..])
  }

  function AddInOrder(x: X509Name, attributes: seq<Attribute>, order: seq<Nid>): X509Name
    decreases |order|
  {
    if order == [] then x else AddInOrder(AddString(x, Lookup(attributes, order[0])), attributes, order[1..])
  }

  /** `populateX509Name` on an empty X.509 name. */
  function Populate(dn: Name): X509Name {
    if dn.customAttributeOrder then AddAll([], dn.attributes) else AddInOrder([], dn.attributes, ORDER)
  }

  /** What `fromX509Name` puts into its builder, in order. */
  function Entries(x: X509Name, order: seq<Nid>): seq<Attribute> {
    if order == [] then [] else [Attribute(order[0], Entry(x, order[0]))] + Entries(x, order[1..])
  }

  /** `fromX509Name`, where the builder refuses a country name of more than two characters. */
  function FromX509Name(x: X509Name): Result<Name, Error> {
    if |Entry(x, CountryName)| > 2 then Err(CountryNameTooLong) else Ok(Name(Entries(x, ORDER), false))
  }

  /** The order of the attributes in `_createTuple`. */
  const TUPLE: seq<Nid> := [
    CommonName, CountryName, LocalityName, StateOrProvinceName, OrganizationalUnitName, OrganizationName,
    Pkcs9EmailAddress, SerialNumber, UserId, GivenName, Title]

  function CreateTuple(dn: Name): seq<string> {
    seq(|TUPLE|, i requires 0 <= i < |TUPLE| => Get(dn.attributes, TUPLE[i]))
  }

  /** `operator==` */
  predicate Equals(a: Name, b: Name) {
    if a.customAttributeOrder && b.customAttributeOrder then a.attributes == b.attributes
    else CreateTuple(a) == CreateTuple(b)
  }

  /** Names are equal without regard to order exactly when every attribute has the same value in both. */
  lemma TuplesAgree(a: Name, b: Name)
    ensures CreateTuple(a) == CreateTuple(b) <==> forall id: Nid :: Get(a.attributes, id) == Get(b.attributes, id)
  {
    if CreateTuple(a) == CreateTuple(b) {
      forall id: Nid
        ensures Get(a.attributes, id) == Get(b.attributes, id)
      {
        var k := TupleIndex(id);
        assert CreateTuple(a)[k] == CreateTuple(b)[k];
      }
    }
  }

  // ---- equality is an equivalence, up to the order ----

  lemma EqualsIsReflexiveAndSymmetric(a: Name, b: Name)
    ensures Equals(a, a) && (Equals(a, b) <==> Equals(b, a))
  {
  }

  ghost predicate Transitive(orderA: bool, orderB: bool, orderC: bool) {
    forall a: Name, b: Name, c: Name ::
      a.customAttributeOrder == orderA && b.customAttributeOrder == orderB && c.customAttributeOrder == orderC ==>
      Equals(a, b) && Equals(b, c) ==> Equals(a, c)
  }

  lemma LookupInTwo(x: Attribute, y: Attribute, id: Nid)
    ensures Lookup([x, y], id) == if y.id == id then Some(y) else if x.id == id then Some(x) else None
  {
    var both := [x, y];
    assert both[..1] == [x] && both[1] == y;
    assert Lookup([x], id) == if x.id == id then Some(x) else None by {
      assert [x][..0] == [];
    }
  }

  /** Two names that differ in their order alone are equal to one without an order, but not to each other. */
  lemma OrderIsForgotten() returns (a: Name, b: Name, c: Name)
    ensures a.customAttributeOrder && !b.customAttributeOrder && c.customAttributeOrder
    ensures Equals(a, b) && Equals(b, c) && !Equals(a, c)
  {
    var x, y := Attribute(CommonName, "x"), Attribute(Title, "y");
    a, b, c := Name([x, y], true), Name([x, y], false), Name([y, x], true);
    assert a.attributes[0] != c.attributes[0];
    forall id: Nid
      ensures Get(b.attributes, id) == Get(c.attributes, id)
    {
      LookupInTwo(x, y, id);
      LookupInTwo(y, x, id);
    }
    TuplesAgree(a, b);
    TuplesAgree(b, c);
  }

  /** Equality is transitive except through a name without an order, between two that have one. */
  lemma TransitiveExactly(orderA: bool, orderB: bool, orderC: bool)
    ensures Transitive(orderA, orderB, orderC) <==> !(orderA && !orderB && orderC)
  {
    if orderA && !orderB && orderC {
      var a, b, c := OrderIsForgotten();
    }
  }

  function TupleIndex(id: Nid): (k: nat)
    ensures k < |TUPLE| && TUPLE[k] == id
  {
    match id
    case CommonName => 0
    case CountryName => 1
    case LocalityName => 2
    case StateOrProvinceName => 3
    case OrganizationalUnitName => 4
    case OrganizationName => 5
    case Pkcs9EmailAddress => 6
    case SerialNumber => 7
    case UserId => 8
    case GivenName => 9
    case Title => 10
  }

  // ---- entries and attributes ----

  predicate Has(x: X509Name, id: Nid) {
    exists j :: 0 <= j < |x| && x[j].id == id
  }

  lemma EntryOfExtended(x: X509Name, a: Attribute, id: Nid)
    ensures Entry(x + [a], id) == if Has(x, id) then Entry(x, id) else if a.id == id then a.name else ""
    ensures Has(x + [a], id) <==> Has(x, id) || a.id == id
    ensures !Has(x, id) ==> Entry(x, id) == ""
  {
    var y := x + [a];
    IndicesInRange(x, id, 0);
    IndicesInRange(y, id, 0);
    assert y[|x|] == a;
    if Has(x, id) {
      var j :| 0 <= j < |x| && x[j].id == id;
      assert y[j].id == id;
      var first, firstOfY := Indices(x, id, 0)[0], Indices(y, id, 0)[0];
      assert y[first].id == id;
      assert firstOfY == first;
    }
  }

  lemma {:induction false} EntryAfterOrder(x: X509Name, attributes: seq<Attribute>, order: seq<Nid>, id: Nid)
    ensures Entry(AddInOrder(x, attributes, order), id) ==
            if Has(x, id) then Entry(x, id) else if id in order then Get(attributes, id) else ""
    decreases |order|
  {
    if order == [] {
      EntryOfExtended(x, Attribute(id, ""), id);
    } else {
      var found := Lookup(attributes, order[0]);
      LookupFinds(attributes, order[0]);
      if found.Some? {
        EntryOfExtended(x, found.value, id);
      }
      EntryAfterOrder(AddString(x, found), attributes, order[1..], id);
    }
  }

  /** The first attribute with the id whose value is not empty. */
  function FirstNonEmpty(attributes: seq<Attribute>, id: Nid): string {
    if attributes == [] then ""
    else if attributes[0].id == id && attributes[0].name != "" then attributes[0].name
    else FirstNonEmpty(attributes[1..], id)
  }

  lemma {:induction false} EntryAfterAll(x: X509Name, attributes: seq<Attribute>, id: Nid)
    ensures Entry(AddAll(x, attributes), id) == if Has(x, id) then Entry(x, id) else FirstNonEmpty(attributes, id)
    decreases |attributes|
  {
    if attributes == [] {
      EntryOfExtended(x, Attribute(id, ""), id);
    } else {
      EntryOfExtended(x, attributes[0], id);
      EntryAfterAll(AddString(x, Some(attributes[0])), attributes[1..], id);
    }
  }

  lemma {:induction false} LookupFinds(attributes: seq<Attribute>, id: Nid)
    ensures match Lookup(attributes, id)
            case None => forall j :: 0 <= j < |attributes| ==> attributes[j].id != id
            case Some(a) =>
              && a.id == id && a in attributes
              && exists j :: 0 <= j < |attributes| && attributes[j] == a && NoneAfter(attributes, j, id)
  {
    if attributes != [] && attributes[|attributes| - 1].id != id {
      var front := attributes[..|attributes| - 1];
      LookupFinds(front, id);
      if Lookup(front, id).Some? {
        var j :| 0 <= j < |front| && front[j] == Lookup(front, id).value && NoneAfter(front, j, id);
        NoneAfterLonger(attributes, j, id);
      }
    } else if attributes != [] {
      assert NoneAfter(attributes, |attributes| - 1, id);
    }
  }

  predicate NoneAfter(attributes: seq<Attribute>, j: nat, id: Nid) {
    forall k :: j < k < |attributes| ==> attributes[k].id != id
  }

  lemma NoneAfterLonger(attributes: seq<Attribute>, j: nat, id: Nid)
    requires attributes != [] && attributes[|attributes| - 1].id != id
    requires NoneAfter(attributes[..|attributes| - 1], j, id)
    ensures NoneAfter(attributes, j, id)
  {
    forall k | j < k < |attributes|
      ensures attributes[k].id != id
    {
      if k < |attributes| - 1 {
        assert attributes[k] == attributes[..|attributes| - 1][k];
      }
    }
  }

  lemma {:induction false} EntriesHold(x: X509Name, order: seq<Nid>)
    ensures |Entries(x, order)| == |order|
    ensures forall i :: 0 <= i < |order| ==> Entries(x, order)[i] == Attribute(order[i], Entry(x, order[i]))
    decreases |order|
  {
    if order != [] {
      EntriesHold(x, order[1..]);
    }
  }

  /** Reading back: an attribute of the name that was read is the first entry with its id. */
  lemma GetOfEntries(x: X509Name, id: Nid)
    ensures Get(Entries(x, ORDER), id) == Entry(x, id)
  {
    OrderIsComplete(id);
    EntriesHold(x, ORDER);
    LookupFinds(Entries(x, ORDER), id);
    var k :| 0 <= k < |ORDER| && ORDER[k] == id;
    assert Entries(x, ORDER)[k].id == id;
  }

  // ---- the round trip ----

  /** What every builder guarantees: no country name of more than two characters. */
  predicate Built(attributes: seq<Attribute>) {
    forall i :: 0 <= i < |attributes| && attributes[i].id == CountryName ==> |attributes[i].name| <= 2
  }

  /** The entry that a populated X.509 name has for an attribute. */
  lemma PopulatedEntry(dn: Name, id: Nid)
    ensures Entry(Populate(dn), id) ==
            if dn.customAttributeOrder then FirstNonEmpty(dn.attributes, id) else Get(dn.attributes, id)
  {
    if dn.customAttributeOrder {
      EntryAfterAll([], dn.attributes, id);
    } else {
      OrderIsComplete(id);
      EntryAfterOrder([], dn.attributes, ORDER, id);
    }
  }

  lemma {:induction false} FirstNonEmptyFinds(attributes: seq<Attribute>, id: Nid)
    ensures var v := FirstNonEmpty(attributes, id);
            if v == "" then forall j :: 0 <= j < |attributes| && attributes[j].id == id ==> attributes[j].name == ""
            else Attribute(id, v) in attributes
  {
    if attributes != [] {
      FirstNonEmptyFinds(attributes[1..], id);
      assert forall a :: a in attributes[1..] ==> a in attributes;
    }
  }

  lemma CountryNameIsShort(dn: Name)
    requires Built(dn.attributes)
    ensures |Entry(Populate(dn), CountryName)| <= 2
  {
    PopulatedEntry(dn, CountryName);
    LookupFinds(dn.attributes, CountryName);
    FirstNonEmptyFinds(dn.attributes, CountryName);
  }

  /** Populating and reading back never throws for a built name, and keeps each attribute that the entry stands for. */
  lemma ReadBack(dn: Name)
    requires Built(dn.attributes)
    ensures var r := FromX509Name(Populate(dn));
            && r.Ok? && !r.value.customAttributeOrder
            && forall id: Nid :: Get(r.value.attributes, id) ==
                 if dn.customAttributeOrder then FirstNonEmpty(dn.attributes, id) else Get(dn.attributes, id)
  {
    var x := Populate(dn);
    CountryNameIsShort(dn);
    forall id: Nid
      ensures Get(Entries(x, ORDER), id) ==
              if dn.customAttributeOrder then FirstNonEmpty(dn.attributes, id) else Get(dn.attributes, id)
    {
      GetOfEntries(x, id);
      PopulatedEntry(dn, id);
    }
  }

  predicate NoRepeats(attributes: seq<Attribute>) {
    forall i, j :: 0 <= i < j < |attributes| ==> attributes[i].id != attributes[j].id
  }

  lemma WithoutRepeatsFirstIsLast(attributes: seq<Attribute>, id: Nid)
    requires NoRepeats(attributes)
    ensures FirstNonEmpty(attributes, id) == Get(attributes, id)
  {
    FirstNonEmptyFinds(attributes, id);
    LookupFinds(attributes, id);
  }

  /**
   * The round trip: reading back a populated name yields an equal name for every name built without an order of
   * its own, and for a custom-order name exactly when, for each attribute, the first non-empty value given is the
   * last one given, in particular when no attribute repeats.
   */
  lemma NameRoundTrip(dn: Name)
    requires Built(dn.attributes)
    ensures var r := FromX509Name(Populate(dn));
            && r.Ok?
            && (!dn.customAttributeOrder ==> Equals(r.value, dn))
            && (dn.customAttributeOrder ==>
                  (Equals(r.value, dn) <==>
                   forall id: Nid :: FirstNonEmpty(dn.attributes, id) == Get(dn.attributes, id)))
            && (NoRepeats(dn.attributes) ==> Equals(r.value, dn))
  {
    ReadBack(dn);
    TuplesAgree(FromX509Name(Populate(dn)).value, dn);
    if NoRepeats(dn.attributes) {
      forall id: Nid
        ensures FirstNonEmpty(dn.attributes, id) == Get(dn.attributes, id)
      {
        WithoutRepeatsFirstIsLast(dn.attributes, id);
      }
    }
  }

  /** A repeated attribute can be lost: the first value is read back, but the name itself answers with the last. */
  lemma RepeatedAttributeIsNotKept()
    ensures var dn := Name([Attribute(Title, "a"), Attribute(Title, "b")], true);
            Built(dn.attributes) && FromX509Name(Populate(dn)).Ok? && !Equals(FromX509Name(Populate(dn)).value, dn)
  {
    var attributes := [Attribute(Title, "a"), Attribute(Title, "b")];
    NameRoundTrip(Name(attributes, true));
    assert FirstNonEmpty(attributes, Title) == "a" && Get(attributes, Title) == "b";
  }

  /** Equality in order implies equality without regard to order. */
  lemma OrderedImpliesUnordered(a: Name, b: Name, aFlag: bool, bFlag: bool)
    requires a.customAttributeOrder && b.customAttributeOrder && Equals(a, b)
    ensures Equals(a.(customAttributeOrder := aFlag), b.(customAttributeOrder := bFlag))
  {
    TuplesAgree(a.(customAttributeOrder := aFlag), b.(customAttributeOrder := bFlag));
  }

  // ---- what an X.509 name holds, entry by entry ----

  /** The positions of the attributes that are not empty. */
  function NonEmpty(attributes: seq<Attribute>, from: nat): seq<nat>
    decreases |attributes| - from
  {
    if from >= |attributes| then []
    else if attributes[from].name == "" then NonEmpty(attributes, from + 1)
    else [from] + NonEmpty(attributes, from + 1)
  }

  lemma {:induction false} NonEmptyAreAll(attributes: seq<Attribute>, from: nat, k: nat)
    ensures k in NonEmpty(attributes, from) <==> from <= k < |attributes| && attributes[k].name != ""
    decreases |attributes| - from
  {
    if from < |attributes| {
      NonEmptyAreAll(attributes, from + 1, k);
    }
  }

  lemma {:induction false} NonEmptyIncrease(attributes: seq<Attribute>, from: nat, i: nat, j: nat)
    requires i < j < |NonEmpty(attributes, from)|
    ensures NonEmpty(attributes, from)[i] < NonEmpty(attributes, from)[j]
    decreases |attributes| - from
  {
    var rest := NonEmpty(attributes, from + 1);
    if attributes[from].name == "" {
      NonEmptyIncrease(attributes, from + 1, i, j);
    } else if i == 0 {
      assert NonEmpty(attributes, from)[j] == rest[j - 1] && rest[j - 1] in rest;
      NonEmptyAreAll(attributes, from + 1, rest[j - 1]);
    } else {
      NonEmptyIncrease(attributes, from + 1, i - 1, j - 1);
    }
  }

  lemma {:induction false} AddAllAppends(x: X509Name, attributes: seq<Attribute>, from: nat)
    requires from <= |attributes|
    ensures var at, y := NonEmpty(attributes, from), AddAll(x, attributes[from..]);
            && |y| == |x| + |at| && x <= y
            && forall i :: 0 <= i < |at| ==> at[i] < |attributes| && y[|x| + i] == attributes[at[i]]
    decreases |attributes| - from
  {
    if from < |attributes| {
      assert attributes[from..][1..] == attributes[from + 1..];
      AddAllAppends(AddString(x, Some(attributes[from])), attributes, from + 1);
    }
  }

  /**
   * With an order of its own, a name is written as its attributes that are not empty, each once and in their order:
   * `at` holds their positions.
   */
  lemma CustomOrderIsKept(dn: Name) returns (at: seq<nat>)
    requires dn.customAttributeOrder
    ensures |Populate(dn)| == |at|
    ensures forall i :: 0 <= i < |at| ==>
              at[i] < |dn.attributes| && dn.attributes[at[i]].name != "" && Populate(dn)[i] == dn.attributes[at[i]]
    ensures forall i, j :: 0 <= i < j < |at| ==> at[i] < at[j]
    ensures forall k: nat :: k < |dn.attributes| && dn.attributes[k].name != "" ==> k in at
  {
    at := NonEmpty(dn.attributes, 0);
    AddAllAppends([], dn.attributes, 0);
    assert dn.attributes[0..] == dn.attributes;
    forall k: nat
      ensures k in at <==> k < |dn.attributes| && dn.attributes[k].name != ""
    {
      NonEmptyAreAll(dn.attributes, 0, k);
    }
    forall i, j | 0 <= i < j < |at|
      ensures at[i] < at[j]
    {
      NonEmptyIncrease(dn.attributes, 0, i, j);
    }
    forall i | 0 <= i < |at|
      ensures at[i] < |dn.attributes| && dn.attributes[at[i]].name != ""
    {
      assert at[i] in at;
    }
  }

  /** The place of an attribute in names without an order of their own. */
  function Rank(id: Nid): nat {
    match id
    case CommonName => 0
    case CountryName => 1
    case LocalityName => 2
    case StateOrProvinceName => 3
    case OrganizationalUnitName => 4
    case OrganizationName => 5
    case Pkcs9EmailAddress => 6
    case SerialNumber => 7
    case GivenName => 8
    case UserId => 9
    case Title => 10
  }

  predicate Ranked(order: seq<Nid>) {
    forall i, j :: 0 <= i < j < |order| ==> Rank(order[i]) < Rank(order[j])
  }

  /** Entries in increasing rank, all of them below the ranks to come. */
  predicate RankedBelow(x: X509Name, order: seq<Nid>) {
    && (forall i, j :: 0 <= i < j < |x| ==> Rank(x[i].id) < Rank(x[j].id))
    && forall i, k :: 0 <= i < |x| && 0 <= k < |order| ==> Rank(x[i].id) < Rank(order[k])
  }

  lemma {:induction false} AddInOrderIsRanked(x: X509Name, attributes: seq<Attribute>, order: seq<Nid>)
    requires Ranked(order) && RankedBelow(x, order)
    ensures RankedBelow(AddInOrder(x, attributes, order), [])
    decreases |order|
  {
    if order != [] {
      var y := AddString(x, Lookup(attributes, order[0]));
      LookupFinds(attributes, order[0]);
      assert RankedBelow(y, order[1..]);
      AddInOrderIsRanked(y, attributes, order[1..]);
    }
  }

  lemma {:induction false} AddInOrderHolds(x: X509Name, attributes: seq<Attribute>, order: seq<Nid>, a: Attribute)
    ensures a in AddInOrder(x, attributes, order) <==>
            a in x || (a.id in order && a.name != "" && Lookup(attributes, a.id) == Some(a))
    decreases |order|
  {
    if order != [] {
      LookupFinds(attributes, order[0]);
      AddInOrderHolds(AddString(x, Lookup(attributes, order[0])), attributes, order[1..], a);
    }
  }

  lemma OrderIsRanked()
    ensures |ORDER| == 11 && Ranked(ORDER)
  {
    assert forall i :: 0 <= i < |ORDER| ==> Rank(ORDER[i]) == i;
  }

  lemma FixedOrderHolds(dn: Name, a: Attribute)
    requires !dn.customAttributeOrder
    ensures a in Populate(dn) <==> a.name != "" && Get(dn.attributes, a.id) == a.name
  {
    OrderIsComplete(a.id);
    AddInOrderHolds([], dn.attributes, ORDER, a);
    GetIsLookup(dn.attributes, a);
  }

  lemma GetIsLookup(attributes: seq<Attribute>, a: Attribute)
    ensures a.name != "" ==> (Lookup(attributes, a.id) == Some(a) <==> Get(attributes, a.id) == a.name)
  {
    LookupFinds(attributes, a.id);
  }

  /**
   * Without an order of its own, a name is written in the fixed order, with one entry for each attribute that the
   * name answers with a value that is not empty, and that value.
   */
  lemma FixedOrder(dn: Name)
    requires !dn.customAttributeOrder
    ensures var x := Populate(dn);
            && (forall i, j :: 0 <= i < j < |x| ==> Rank(x[i].id) < Rank(x[j].id))
            && forall a: Attribute :: a in x <==> a.name != "" && Get(dn.attributes, a.id) == a.name
  {
    OrderIsRanked();
    AddInOrderIsRanked([], dn.attributes, ORDER);
    forall a: Attribute
      ensures a in Populate(dn) <==> a.name != "" && Get(dn.attributes, a.id) == a.name
    {
      FixedOrderHolds(dn, a);
    }
  }

  /** Reading any X.509 name: each attribute gets the first value with its id, unless the country name is too long. */
  lemma ReadsFirst(x: X509Name, id: Nid)
    ensures var r := FromX509Name(x);
            && (r.Err? <==> exists j :: 0 <= j < |x| && IsFirst(x, j, CountryName) && |x[j].name| > 2)
            && (r.Ok? ==>
                  && !r.value.customAttributeOrder
                  && (forall j :: 0 <= j < |x| && IsFirst(x, j, id) ==> Get(r.value.attributes, id) == x[j].name)
                  && ((forall j :: 0 <= j < |x| ==> x[j].id != id) ==> Get(r.value.attributes, id) == ""))
  {
    EntryIsFirst(x, CountryName);
    EntryIsFirst(x, id);
    GetOfEntries(x, id);
  }

  predicate IsFirst(x: X509Name, j: nat, id: Nid)
    requires j < |x|
  {
    x[j].id == id && forall k :: 0 <= k < j ==> x[k].id != id
  }

  lemma EntryIsFirst(x: X509Name, id: Nid)
    ensures forall j :: 0 <= j < |x| && IsFirst(x, j, id) ==> Entry(x, id) == x[j].name
    ensures (forall j :: 0 <= j < |x| ==> x[j].id != id) ==> Entry(x, id) == ""
    ensures Entry(x, id) != "" ==> exists j :: 0 <= j < |x| && IsFirst(x, j, id) && x[j].name == Entry(x, id)
  {
    IndicesInRange(x, id, 0);
    if Indices(x, id, 0) != [] {
      var first := Indices(x, id, 0)[0];
      assert IsFirst(x, first, id);
    }
  }

  /** Two names with custom orders are equal exactly with the same attributes in order, others exactly by value. */
  lemma EqualsExactly(a: Name, b: Name)
    ensures Equals(a, b) <==>
            if a.customAttributeOrder && b.customAttributeOrder then a.attributes == b.attributes
            else forall id: Nid :: Get(a.attributes, id) == Get(b.attributes, id)
  {
    TuplesAgree(a, b);
  }

  // ---- the builders ----

  /** `Builder` and `CustomOrderBuilder`; the setter of each attribute appends it. */
  class Builder {
    var dn: Name

    ghost predicate Valid()
      reads this
    {
      Built(dn.attributes)
    }

    constructor (customAttributeOrder: bool)
      ensures Valid() && dn == Name([], customAttributeOrder)
    {
      dn := Name([], customAttributeOrder);
    }

    method Append(id: Nid, name: string) returns (r: Result<(), Error>)
      requires Valid()
      modifies this
      ensures Valid() && r == if id == CountryName && |name| > 2 then Err(CountryNameTooLong) else Ok(())
      ensures dn == if r.Ok? then old(dn).(attributes := old(dn).attributes + [Attribute(id, name)]) else old(dn)
    {
      if id == CountryName && |name| > 2 {
        return Err(CountryNameTooLong);
      }
      dn := dn.(attributes := dn.attributes + [Attribute(id, name)]);
      r := Ok(());
    }
  }

  /** `populateX509Name` */
  method PopulateX509Name(dn: Name) returns (subject: X509Name)
    ensures subject == Populate(dn)
  {
    if dn.customAttributeOrder {
      subject := AddEvery(dn.attributes);
    } else {
      subject := AddInThisOrder(dn.attributes, ORDER);
    }
  }

  method AddEvery(attributes: seq<Attribute>) returns (subject: X509Name)
    ensures subject == AddAll([], attributes)
  {
    subject := [];
    assert attributes[0..] == attributes;
    for i := 0 to |attributes|
      invariant AddAll(subject, attributes[i..]) == AddAll([], attributes)
    {
      assert attributes[i..][1..] == attributes[i + 1..];
      subject := AddString(subject, Some(attributes[i]));
    }
  }

  method AddInThisOrder(attributes: seq<Attribute>, order: seq<Nid>) returns (subject: X509Name)
    ensures subject == AddInOrder([], attributes, order)
  {
    subject := [];
    assert order[0..] == order;
    for i := 0 to |order|
      invariant AddInOrder(subject, attributes, order[i..]) == AddInOrder([], attributes, order)
    {
      assert order[i..][1..] == order[i + 1..];
      subject := AddString(subject, Lookup(attributes, order[i]));
    }
  }

  /** `fromX509Name`, which hands the entries to a builder one by one. */
  method ReadX509Name(x: X509Name) returns (r: Result<Name, Error>)
    ensures r == FromX509Name(x)
  {
    OrderIsComplete(CountryName);
    r := ReadInThisOrder(x, ORDER);
  }

  method ReadInThisOrder(x: X509Name, order: seq<Nid>) returns (r: Result<Name, Error>)
    ensures r == if CountryName in order && |Entry(x, CountryName)| > 2 then Err(CountryNameTooLong)
                 else Ok(Name(Entries(x, order), false))
  {
    EntriesHold(x, order);
    ghost var entries := Entries(x, order);
    var builder := new Builder(false);
    for i := 0 to |order|
      invariant builder.Valid() && builder.dn == Name(entries[..i], false)
      invariant CountryName in order[..i] ==> |Entry(x, CountryName)| <= 2
    {
      var appended := builder.Append(order[i], Entry(x, order[i]));
      if appended.Err? {
        assert order[i] in order;
        return Err(appended.error);
      }
      assert entries[..i + 1] == entries[..i] + [entries[i]] && order[..i + 1] == order[..i] + [order[i]];
    }
    assert entries[..|order|] == entries && order[..|order|] == order;
    r := Ok(builder.dn);
  }
}
