/** The normalised view of an incoming request that every matcher reads. */
module Requests {
  import Http

  datatype Request = Request(
    headers: Http.HeaderMap,
    pathParams: map<string, string>,
    query: map<string, string>,
    body: string)

  /** The path parameters collected into a map, left to right, so that a
      later pair overwrites an earlier one with the same name. */
  function ParamsOf(raw: seq<(string, string)>): (m: map<string, string>)
    ensures forall k :: k in m ==> exists i :: 0 <= i < |raw| && raw[i] == (k, m[k])
  {
    if raw == [] then map[]
    else ParamsOf(raw[..|raw| - 1])[raw[|raw| - 1].0 := raw[|raw| - 1].1]
  }

  /** The map holds exactly the names that occur. */
  lemma {:induction false} ParamsOfKeys(raw: seq<(string, string)>)
    ensures forall k :: k in ParamsOf(raw) <==> exists i :: 0 <= i < |raw| && raw[i].0 == k
  {
    if raw != [] {
      var init := raw[..|raw| - 1];
      ParamsOfKeys(init);
      assert forall i :: 0 <= i < |init| ==> init[i] == raw[i];
    }
  }

  /** A name that does not occur again later is bound to the value of
      that occurrence. */
  lemma {:induction false} ParamsOfLastValue(raw: seq<(string, string)>, i: nat)
    requires i < |raw| && forall j :: i < j < |raw| ==> raw[j].0 != raw[i].0
    ensures raw[i].0 in ParamsOf(raw) && ParamsOf(raw)[raw[i].0] == raw[i].1
  {
    if i < |raw| - 1 {
      var init := raw[..|raw| - 1];
      assert init[i] == raw[i];
      assert forall j :: i < j < |init| ==> init[j] == raw[j];
      ParamsOfLastValue(init, i);
    }
  }

  /** The map holds exactly the names that occur, each with the value of
      its last occurrence. */
  lemma ParamsOfLastWins(raw: seq<(string, string)>)
    ensures forall k :: k in ParamsOf(raw) <==> exists i :: 0 <= i < |raw| && raw[i].0 == k
    ensures forall i :: 0 <= i < |raw| && (forall j :: i < j < |raw| ==> raw[j].0 != raw[i].0)
                        ==> raw[i].0 in ParamsOf(raw) && ParamsOf(raw)[raw[i].0] == raw[i].1
  {
    ParamsOfKeys(raw);
    forall i | 0 <= i < |raw| && (forall j :: i < j < |raw| ==> raw[j].0 != raw[i].0)
      ensures raw[i].0 in ParamsOf(raw) && ParamsOf(raw)[raw[i].0] == raw[i].1
    {
      ParamsOfLastValue(raw, i);
    }
  }

  /** The fold of the raw path parameters into a fresh map. */
  method CollectPathParams(raw: seq<(string, string)>) returns (m: map<string, string>)
    ensures m == ParamsOf(raw)
  {
    m := map[];
    var i := 0;
    while i < |raw|
      invariant 0 <= i <= |raw|
      invariant m == ParamsOf(raw[..i])
    {
      assert raw[..i + 1][..i] == raw[..i];
      m := m[raw[i].0 := raw[i].1];
      i := i + 1;
    }
    assert raw[..i] == raw;
  }
}
