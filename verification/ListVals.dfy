/** The values carried in option lists (`struct dhcp6_listval`) and the search
    through a list of them. */
module ListVals {
  import opened Bytes

  const INFINITE: uint32 := 0xffff_ffff

  datatype IaType = PD | NA

  datatype Value =
    | StCode(code: uint16)
    | Prefix(pltime: uint32, vltime: uint32, addr: Addr, plen: int)
    | StatefulAddr(pltime: uint32, vltime: uint32, addr: Addr)
    | Ia(iatype: IaType, iaid: uint32, t1: uint32, t2: uint32)

  datatype ListVal = ListVal(val: Value, sub: seq<ListVal>)

  /** Whether a list entry answers to a search key: same kind, same identity. */
  predicate Matches(v: Value, key: Value) {
    match key
    case StCode(c) => v.StCode? && v.code == c
    case Prefix(_, _, a, p) => v.Prefix? && v.addr == a && v.plen == p
    case StatefulAddr(_, _, a) => v.StatefulAddr? && v.addr == a
    case Ia(t, id, _, _) => v.Ia? && v.iatype == t && v.iaid == id
  }

  predicate MatchesPlen(v: Value, key: Value) {
    v.Prefix? && key.Prefix? && v.plen == key.plen
  }

  /** The position of the first entry that answers to `key`, or -1. */
  function Find(list: seq<Value>, key: Value): (i: int)
    ensures -1 <= i < |list|
    ensures i >= 0 ==> Matches(list[i], key)
    ensures forall j :: 0 <= j < (if i < 0 then |list| else i) ==> !Matches(list[j], key)
  {
    if list == [] then -1
    else if Matches(list[0], key) then 0
    else
      var i := Find(list[1..], key);
      assert forall j :: 1 <= j < |list| ==> list[j] == list[1..][j - 1];
      if i < 0 then -1 else i + 1
  }

  /** The position of the first prefix of the same length as `key`, or -1. */
  function FindPlen(list: seq<Value>, key: Value): (i: int)
    ensures -1 <= i < |list|
    ensures i >= 0 ==> MatchesPlen(list[i], key)
    ensures forall j :: 0 <= j < (if i < 0 then |list| else i) ==> !MatchesPlen(list[j], key)
  {
    if list == [] then -1
    else if MatchesPlen(list[0], key) then 0
    else
      var i := FindPlen(list[1..], key);
      assert forall j :: 1 <= j < |list| ==> list[j] == list[1..][j - 1];
      if i < 0 then -1 else i + 1
  }

  /** dhcp6_find_listval without options. */
  method FindListval(list: seq<Value>, key: Value) returns (i: int)
    ensures i == Find(list, key)
  {
    i := 0;
    while i < |list|
      invariant 0 <= i <= |list|
      invariant forall j :: 0 <= j < i ==> !Matches(list[j], key)
    {
      if Matches(list[i], key) {
        return;
      }
      i := i + 1;
    }
    i := -1;
  }

  /** dhcp6_find_listval with MATCHLIST_PREFIXLEN. */
  method FindListvalPlen(list: seq<Value>, key: Value) returns (i: int)
    ensures i == FindPlen(list, key)
  {
    i := 0;
    while i < |list|
      invariant 0 <= i <= |list|
      invariant forall j :: 0 <= j < i ==> !MatchesPlen(list[j], key)
    {
      if MatchesPlen(list[i], key) {
        return;
      }
      i := i + 1;
    }
    i := -1;
  }

  function RemoveMatch(list: seq<Value>, key: Value): (r: seq<Value>) {
    var i := Find(list, key);
    if i < 0 then list else RemoveAt(list, i)
  }

  /** A list of values without sub-options, as the server hands it out. */
  function Flat(vals: seq<Value>): (r: seq<ListVal>)
    ensures |r| == |vals| && forall k :: 0 <= k < |r| ==> r[k] == ListVal(vals[k], [])
  {
    seq(|vals|, i requires 0 <= i < |vals| => ListVal(vals[i], []))
  }
}
