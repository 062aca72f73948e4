/** The VLAN page's form (VlanAllocationCalculator.tsx): the list of VLANs the
    user builds with `addVlan` and `removeVlan`, and the guard `calculateVlan`
    applies before calling the backend.

    The page is the only place that keeps VLAN ids in [1, 4094] and distinct;
    the backend takes whatever list it is given.  The numeric inputs are HTML
    number fields: their value is either empty or the text of a number, which
    `Number` reads; only whole numbers are modelled.
 */
module VlanList {
  import opened Results
  import opened Bits
  import opened Vlan

  /** A number field: left empty, or holding a whole number. */
  datatype Field = Blank | Entered(value: int)

  /** A VLAN of the list, with the numbers `Number` read from the fields. */
  datatype Entry = Entry(vlanId: int, vlanName: string, requiredHosts: int)

  /** The page state the form logic reads and writes. */
  datatype Form = Form(
    baseNetwork: string,
    baseCidr: Field,
    configs: seq<Entry>,
    newVlanId: Field,
    newVlanName: string,
    newRequiredHosts: Field)

  /** The highest VLAN id the page accepts. */
  const MAX_VLAN_ID: int := 4094

  /** The page as it opens: every field empty, no VLAN. */
  const Initial: Form := Form("", Blank, [], Blank, "", Blank)

  predicate IdInRange(id: int) {
    1 <= id <= MAX_VLAN_ID
  }

  /** Some VLAN of the list has this id. */
  predicate HasId(configs: seq<Entry>, id: int) {
    exists i :: 0 <= i < |configs| && configs[i].vlanId == id
  }

  /** The invariant the page keeps: every id in range, no id twice. */
  predicate ValidList(configs: seq<Entry>) {
    && (forall i :: 0 <= i < |configs| ==> IdInRange(configs[i].vlanId))
    && DistinctIds(configs)
  }

  /** No two VLANs of the list share an id. */
  predicate DistinctIds(configs: seq<Entry>) {
    forall i, j :: 0 <= i < j < |configs| ==> configs[i].vlanId != configs[j].vlanId
  }

  /** Why `addVlan` did or did not add a VLAN. */
  datatype AddOutcome =
    // A field is empty: nothing happens.
    | Incomplete
    // "VLAN ID must be between 1 and 4094".
    | IdOutOfRange
    // "VLAN ID already exists".
    | IdTaken
    | Added

  datatype AddResult = AddResult(form: Form, outcome: AddOutcome)

  /** `addVlan`: with all three fields filled, an id in range and not yet
      used, the VLAN is appended and the fields are cleared; otherwise the
      form is left as it is. */
  function AddVlan(f: Form): (r: AddResult)
    ensures r.outcome == Incomplete <==> f.newVlanId.Blank? || f.newVlanName == "" || f.newRequiredHosts.Blank?
    ensures r.outcome == IdOutOfRange <==>
      f.newVlanId.Entered? && f.newVlanName != "" && f.newRequiredHosts.Entered? && !IdInRange(f.newVlanId.value)
    ensures r.outcome == IdTaken <==>
      && f.newVlanId.Entered? && f.newVlanName != "" && f.newRequiredHosts.Entered?
      && IdInRange(f.newVlanId.value) && HasId(f.configs, f.newVlanId.value)
    ensures r.outcome != Added ==> r.form == f
    ensures r.outcome == Added ==>
      && r.form.configs == f.configs + [Entry(f.newVlanId.value, f.newVlanName, f.newRequiredHosts.value)]
      && r.form.newVlanId == Blank && r.form.newVlanName == "" && r.form.newRequiredHosts == Blank
      && r.form.baseNetwork == f.baseNetwork && r.form.baseCidr == f.baseCidr
  {
    if f.newVlanId.Blank? || f.newVlanName == "" || f.newRequiredHosts.Blank? then AddResult(f, Incomplete)
    else
      var id := f.newVlanId.value;
      if id < 1 || id > MAX_VLAN_ID then AddResult(f, IdOutOfRange)
      else if exists i :: 0 <= i < |f.configs| && f.configs[i].vlanId == id then AddResult(f, IdTaken)
      else
        var entry := Entry(id, f.newVlanName, f.newRequiredHosts.value);
        AddResult(f.(configs := f.configs + [entry], newVlanId := Blank, newVlanName := "", newRequiredHosts := Blank),
          Added)
  }

  /** The VLANs whose id is not `id`, in their order. */
  function Without(configs: seq<Entry>, id: int): (r: seq<Entry>)
    ensures forall e :: e in r <==> e in configs && e.vlanId != id
  {
    if |configs| == 0 then []
    else (if configs[0].vlanId == id then [] else [configs[0]]) + Without(configs[1..], id)
  }

  /** `removeVlan`: the list filtered on the id. */
  function RemoveVlan(f: Form, id: int): (r: Form)
    ensures forall e :: e in r.configs <==> e in f.configs && e.vlanId != id
    ensures !HasId(r.configs, id)
    ensures r.(configs := f.configs) == f
  {
    f.(configs := Without(f.configs, id))
  }

  /** In a list without repeated ids, removing an id deletes exactly the
      one VLAN carrying it and keeps the others in order. */
  lemma {:induction false} RemoveDeletesOne(configs: seq<Entry>, k: nat)
    requires k < |configs| && DistinctIds(configs)
    ensures Without(configs, configs[k].vlanId) == configs[..k] + configs[k + 1..]
    decreases k
  {
    var id := configs[k].vlanId;
    var rest := configs[1..];
    if k == 0 {
      NoneRemoved(rest, id);
      assert configs[k + 1..] == rest;
    } else {
      assert rest[k - 1] == configs[k];
      DistinctTail(configs);
      RemoveDeletesOne(rest, k - 1);
      assert configs[0].vlanId != id;
      assert Without(configs, id) == [configs[0]] + Without(rest, id);
      DeleteBehindHead(configs, k);
    }
  }

  /** Deleting a position behind the head deletes it from the tail. */
  lemma DeleteBehindHead<T>(s: seq<T>, k: nat)
    requires 0 < k < |s|
    ensures s[..k] + s[k + 1..] == [s[0]] + (s[1..][..k - 1] + s[1..][k..])
  {
    var rest := s[1..];
    assert s[..k] == [s[0]] + rest[..k - 1];
    assert s[k + 1..] == rest[k..];
  }

  lemma DistinctTail(configs: seq<Entry>)
    requires |configs| > 0 && DistinctIds(configs)
    ensures DistinctIds(configs[1..])
  {
    var rest := configs[1..];
    forall i, j | 0 <= i < j < |rest|
      ensures rest[i].vlanId != rest[j].vlanId
    {
      assert rest[i] == configs[i + 1] && rest[j] == configs[j + 1];
    }
  }

  /** Removing an id no VLAN carries changes nothing. */
  lemma {:induction false} NoneRemoved(configs: seq<Entry>, id: int)
    requires forall i :: 0 <= i < |configs| ==> configs[i].vlanId != id
    ensures Without(configs, id) == configs
    decreases |configs|
  {
    if |configs| > 0 {
      var rest := configs[1..];
      forall i | 0 <= i < |rest|
        ensures rest[i].vlanId != id
      {
        assert rest[i] == configs[i + 1];
      }
      NoneRemoved(rest, id);
      assert [configs[0]] + rest == configs;
    }
  }

  /** Filtering keeps a list valid. */
  lemma {:induction false} WithoutValid(configs: seq<Entry>, id: int)
    requires ValidList(configs)
    ensures ValidList(Without(configs, id))
    decreases |configs|
  {
    if |configs| > 0 {
      var x, rest := configs[0], configs[1..];
      TailValid(configs);
      WithoutValid(rest, id);
      var w := Without(rest, id);
      if x.vlanId != id {
        assert Without(configs, id) == [x] + w;
        forall e | e in w
          ensures e.vlanId != x.vlanId
        {
          assert e in rest;
          var j :| 0 <= j < |rest| && rest[j] == e;
          assert configs[j + 1] == e;
        }
        ConsValid(x, w);
      } else {
        assert Without(configs, id) == w;
      }
    }
  }

  lemma TailValid(configs: seq<Entry>)
    requires |configs| > 0 && ValidList(configs)
    ensures ValidList(configs[1..])
  {
    var rest := configs[1..];
    DistinctTail(configs);
    forall i | 0 <= i < |rest|
      ensures IdInRange(rest[i].vlanId)
    {
      assert rest[i] == configs[i + 1];
    }
  }

  /** A VLAN in range in front of a valid list that does not use its id. */
  lemma ConsValid(x: Entry, w: seq<Entry>)
    requires IdInRange(x.vlanId) && ValidList(w)
    requires forall e :: e in w ==> e.vlanId != x.vlanId
    ensures ValidList([x] + w)
  {
    var r := [x] + w;
    forall i, j | 0 <= i < j < |r|
      ensures r[i].vlanId != r[j].vlanId
    {
      assert r[j] == w[j - 1];
      if i > 0 {
        assert r[i] == w[i - 1];
      } else {
        assert r[j] in w;
      }
    }
    forall i | 0 <= i < |r|
      ensures IdInRange(r[i].vlanId)
    {
      if i > 0 {
        assert r[i] == w[i - 1];
      }
    }
  }

  /** Adding keeps the list valid. */
  lemma AddKeepsValid(f: Form)
    requires ValidList(f.configs)
    ensures ValidList(AddVlan(f).form.configs)
  {
    var r := AddVlan(f);
    if r.outcome == Added {
      var cs := r.form.configs;
      assert !HasId(f.configs, f.newVlanId.value);
      forall i, j | 0 <= i < j < |cs|
        ensures cs[i].vlanId != cs[j].vlanId
      {
        if j == |cs| - 1 {
          assert cs[i] == f.configs[i];
        } else {
          assert cs[i] == f.configs[i] && cs[j] == f.configs[j];
        }
      }
      forall i | 0 <= i < |cs|
        ensures IdInRange(cs[i].vlanId)
      {
        if i < |f.configs| {
          assert cs[i] == f.configs[i];
        }
      }
    }
  }

  /** What the user can do on the page: type into the fields, press "Add",
      or press a VLAN's delete button. */
  datatype Action =
    | Type(baseNetwork: string, baseCidr: Field, newVlanId: Field, newVlanName: string, newRequiredHosts: Field)
    | Add
    | Remove(id: int)

  function Step(f: Form, a: Action): Form {
    match a
    case Type(bn, bc, id, name, hosts) =>
      f.(baseNetwork := bn, baseCidr := bc, newVlanId := id, newVlanName := name, newRequiredHosts := hosts)
    case Add => AddVlan(f).form
    case Remove(id) => RemoveVlan(f, id)
  }

  function Run(f: Form, actions: seq<Action>): Form
    decreases |actions|
  {
    if |actions| == 0 then f else Run(Step(f, actions[0]), actions[1..])
  }

  /** Whatever the user does from the opening page, the list stays valid. */
  lemma {:induction false} RunKeepsValid(f: Form, actions: seq<Action>)
    requires ValidList(f.configs)
    ensures ValidList(Run(f, actions).configs)
    decreases |actions|
  {
    if |actions| > 0 {
      var a := actions[0];
      match a {
        case Type(_, _, _, _, _) =>
        case Add => AddKeepsValid(f);
        case Remove(id) => WithoutValid(f.configs, id);
      }
      RunKeepsValid(Step(f, a), actions[1..]);
    }
  }

  /** What `calculateVlan` sends: the base network text, the prefix and the
      list; nothing unless all three are present. */
  datatype Request = Request(baseNetwork: string, baseCidr: int, configs: seq<Entry>)

  function CalculateRequest(f: Form): (r: Option<Request>)
    ensures r.Some? <==> f.baseNetwork != "" && f.baseCidr.Entered? && |f.configs| > 0
    ensures r.Some? ==> r.value == Request(f.baseNetwork, f.baseCidr.value, f.configs)
  {
    if f.baseNetwork == "" || f.baseCidr.Blank? || |f.configs| == 0 then None
    else Some(Request(f.baseNetwork, f.baseCidr.value, f.configs))
  }

  /** The list as the backend reads it: every number must fit its unsigned
      32-bit field, or the request is not read at all. */
  function ToConfigs(entries: seq<Entry>): (r: Option<seq<VlanConfig>>)
    ensures r.Some? <==> forall i :: 0 <= i < |entries| ==>
      0 <= entries[i].vlanId < TWO_32 && 0 <= entries[i].requiredHosts < TWO_32
    ensures r.Some? ==> |r.value| == |entries| && forall i :: 0 <= i < |entries| ==>
      r.value[i] == VlanConfig(entries[i].vlanId, entries[i].vlanName, entries[i].requiredHosts)
  {
    if |entries| == 0 then Some([])
    else
      var e := entries[0];
      if 0 <= e.vlanId < TWO_32 && 0 <= e.requiredHosts < TWO_32 then
        match ToConfigs(entries[1..])
        case None => None
        case Some(rest) => Some([VlanConfig(e.vlanId, e.vlanName, e.requiredHosts)] + rest)
      else None
  }

  /** Every request the page sends from a page reached by the user carries a
      base network, a prefix and at least one VLAN, and its VLAN ids are in
      [1, 4094] and distinct: the assumptions the backend makes without
      checking. */
  lemma RequestsAreValid(actions: seq<Action>)
    requires CalculateRequest(Run(Initial, actions)).Some?
    ensures var q := CalculateRequest(Run(Initial, actions)).value;
      && q.baseNetwork != "" && |q.configs| > 0
      && (forall i :: 0 <= i < |q.configs| ==> 1 <= q.configs[i].vlanId <= MAX_VLAN_ID)
      && (forall i, j :: 0 <= i < j < |q.configs| ==> q.configs[i].vlanId != q.configs[j].vlanId)
  {
    RunKeepsValid(Initial, actions);
  }
}
