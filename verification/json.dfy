/**
  A JSON token tree (`JToken`) and the property lookups the extensions use:
  `JObject.Property(name)` matches names ordinally and returns the first match;
  `GetValue(name, ...IgnoreCase)` falls back to the first name that matches
  ignoring case.
 */
module Json {
  import opened Wrappers
  import Text

  datatype JToken =
    | JNull
    | JBool(b: bool)
    | JInteger(i: int)
    | JFloat(f: real)
    | JString(s: string)
    | JArray(items: seq<JToken>)
    | JObject(props: seq<JProperty>)

  datatype JProperty = JProperty(name: string, value: JToken)

  /** The position of the first property with exactly this name. */
  function IndexOf(ps: seq<JProperty>, name: string): (r: Option<nat>)
    ensures r.Some? ==> r.value < |ps| && ps[r.value].name == name
                        && forall j :: 0 <= j < r.value ==> ps[j].name != name
    ensures r.None? <==> forall j :: 0 <= j < |ps| ==> ps[j].name != name
    decreases |ps|
  {
    if ps == [] then None
    else if ps[0].name == name then Some(0)
    else
      match IndexOf(ps[1..], name)
      case None =>
        assert forall j :: 1 <= j < |ps| ==> ps[j] == ps[1..][j - 1];
        None
      case Some(i) =>
        assert forall j :: 1 <= j < i + 1 ==> ps[j] == ps[1..][j - 1];
        Some(i + 1)
  }

  /** The value of the first property with exactly this name. */
  function Get(ps: seq<JProperty>, name: string): Option<JToken> {
    match IndexOf(ps, name)
    case None => None
    case Some(i) => Some(ps[i].value)
  }

  /** The position of the first property whose name matches ignoring case. */
  function IndexOfIgnoreCase(ps: seq<JProperty>, name: string): (r: Option<nat>)
    ensures r.Some? ==> r.value < |ps| && Text.EqualsIgnoreCase(ps[r.value].name, name)
                        && forall j :: 0 <= j < r.value ==> !Text.EqualsIgnoreCase(ps[j].name, name)
    ensures r.None? <==> forall j :: 0 <= j < |ps| ==> !Text.EqualsIgnoreCase(ps[j].name, name)
    decreases |ps|
  {
    if ps == [] then None
    else if Text.EqualsIgnoreCase(ps[0].name, name) then Some(0)
    else
      match IndexOfIgnoreCase(ps[1..], name)
      case None =>
        assert forall j :: 1 <= j < |ps| ==> ps[j] == ps[1..][j - 1];
        None
      case Some(i) =>
        assert forall j :: 1 <= j < i + 1 ==> ps[j] == ps[1..][j - 1];
        Some(i + 1)
  }

  /** A well-formed object: no two properties share a name. */
  predicate DistinctNames(ps: seq<JProperty>) {
    forall i, j :: 0 <= i < j < |ps| ==> ps[i].name != ps[j].name
  }

  /** Looking a name up after appending a property. */
  lemma {:induction false} GetAppend(ps: seq<JProperty>, q: JProperty, name: string)
    ensures Get(ps + [q], name)
            == if Get(ps, name).Some? then Get(ps, name) else if q.name == name then Some(q.value) else None
  {
    var qs := ps + [q];
    assert forall j :: 0 <= j < |ps| ==> qs[j] == ps[j];
    match IndexOf(ps, name)
    case Some(i) =>
      assert qs[i].name == name;
      assert IndexOf(qs, name) == Some(i);
    case None =>
      if q.name == name {
        assert IndexOf(qs, name) == Some(|ps|) by {
          assert qs[|ps|] == q;
          var k := IndexOf(qs, name);
          assert k.Some? ==> k.value == |ps|;
        }
      } else {
        assert IndexOf(qs, name).None?;
      }
  }

  /** The first-match lookup only looks at names. */
  lemma {:induction false} IndexOfSameNames(ps: seq<JProperty>, qs: seq<JProperty>, name: string)
    requires |ps| == |qs| && forall j :: 0 <= j < |ps| ==> ps[j].name == qs[j].name
    ensures IndexOf(ps, name) == IndexOf(qs, name)
    decreases |ps|
  {
    if ps != [] && ps[0].name != name {
      IndexOfSameNames(ps[1..], qs[1..], name);
    }
  }

  /** Replacing the value of the first property with a given name. */
  lemma {:induction false} GetUpdate(ps: seq<JProperty>, i: nat, v: JToken, name: string)
    requires i < |ps| && IndexOf(ps, ps[i].name) == Some(i)
    ensures Get(ps[i := JProperty(ps[i].name, v)], name)
            == if name == ps[i].name then Some(v) else Get(ps, name)
  {
    var qs := ps[i := JProperty(ps[i].name, v)];
    IndexOfSameNames(ps, qs, name);
    var k := IndexOf(ps, name);
    if k.Some? && k.value != i {
      assert qs[k.value] == ps[k.value];
    }
  }
}
