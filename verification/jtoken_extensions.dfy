/**
  `JTokenExtensions`: emptiness of a token, the deep merge `MergeWith` (a
  `JObject.Merge` with arrays replaced and explicit nulls merged), the
  case-insensitive top-level lookup and the property walk.
 */
module JTokenExtensions {
  import opened Wrappers
  import opened Json
  import Text

  /** The merge and the lookup cast a token to an object, and a token of
      another type throws; the lookup also dereferences its receiver, so a
      null token throws too. */
  datatype JsonFault = InvalidCast | NullReference

  /** `JToken.HasValues`: a container with at least one child. */
  predicate HasValues(t: JToken) {
    (t.JArray? && t.items != []) || (t.JObject? && t.props != [])
  }

  /** `IsNullOrEmpty`: a missing token, JSON null, the empty string, or an
      array or object without children. Scalars other than the empty string
      are never empty. */
  function IsNullOrEmpty(t: Option<JToken>): (b: bool)
    ensures b <==> || t.None?
                   || ((t.value.JArray? || t.value.JObject?) && !HasValues(t.value))
                   || (t.value.JString? && Text.IsNullOrEmpty(Some(t.value.s)))
                   || t.value.JNull?
    ensures t.Some? && (t.value.JBool? || t.value.JInteger? || t.value.JFloat?) ==> !b
  {
    || t.None?
    || t.value == JArray([])
    || t.value == JObject([])
    || t.value == JString("")
    || t.value == JNull
  }

  // ---------------------------------------------------------------------
  // MergeWith
  // ---------------------------------------------------------------------

  /** What a merge makes of one property value: two objects merge property by
      property, anything else (scalar, array, explicit null) is replaced by
      the right-hand value. */
  function MergeValue(l: JToken, r: JToken): (m: JToken)
    ensures m.JObject? <==> r.JObject?
    decreases r, 1
  {
    if l.JObject? && r.JObject? then JObject(MergeProps(l.props, r, |r.props|)) else r
  }

  /** The first `n` properties of the right-hand object `r` merged into `ls`, in
      order: a new name is appended, an existing one has its value merged. */
  function MergeProps(ls: seq<JProperty>, r: JToken, n: nat): (ms: seq<JProperty>)
    requires r.JObject? && n <= |r.props|
    ensures |ls| <= |ms|
    ensures forall i :: 0 <= i < |ls| ==> ms[i].name == ls[i].name
    decreases r, 0, n
  {
    if n == 0 then ls
    else
      var acc := MergeProps(ls, r, n - 1);
      var p := r.props[n - 1];
      match IndexOf(acc, p.name)
      case None => acc + [p]
      case Some(i) => acc[i := JProperty(p.name, MergeValue(acc[i].value, p.value))]
  }

  /** The value a name has after a merge, from its values on either side. */
  function Combine(a: Option<JToken>, b: Option<JToken>): Option<JToken> {
    match (a, b)
    case (_, None) => a
    case (None, Some(y)) => b
    case (Some(x), Some(y)) => Some(MergeValue(x, y))
  }

  lemma {:induction false} MergePropsLookup(ls: seq<JProperty>, r: JToken, n: nat, name: string)
    requires r.JObject? && n <= |r.props| && DistinctNames(r.props)
    ensures Get(MergeProps(ls, r, n), name) == Combine(Get(ls, name), Get(r.props[..n], name))
    decreases n
  {
    if n > 0 {
      var acc := MergeProps(ls, r, n - 1);
      var p := r.props[n - 1];
      MergePropsLookup(ls, r, n - 1, name);
      assert r.props[..n] == r.props[..n - 1] + [p];
      GetAppend(r.props[..n - 1], p, name);
      if name == p.name {
        assert Get(r.props[..n - 1], name).None? by {
          var pre := r.props[..n - 1];
          assert IndexOf(pre, name).None? by {
            forall j | 0 <= j < |pre| ensures pre[j].name != name {
              assert pre[j] == r.props[j];
              assert r.props[j].name != r.props[n - 1].name;
            }
          }
        }
      }
      match IndexOf(acc, p.name)
      case None =>
        GetAppend(acc, p, name);
      case Some(i) =>
        GetUpdate(acc, i, MergeValue(acc[i].value, p.value), name);
    }
  }

  /** Merging two objects: each name ends up with its left value when only the
      left has it, its right value when only the right has it, and the merge of
      both otherwise. */
  lemma {:induction false} MergeValueLookup(l: JToken, r: JToken, name: string)
    requires l.JObject? && r.JObject? && DistinctNames(r.props)
    ensures MergeValue(l, r).JObject?
    ensures Get(MergeValue(l, r).props, name) == Combine(Get(l.props, name), Get(r.props, name))
  {
    MergePropsLookup(l.props, r, |r.props|, name);
    assert r.props[..|r.props|] == r.props;
  }

  /** A merge keeps every left property where it was and adds the right-only
      ones after them, so well-formed objects merge into a well-formed one. */
  lemma {:induction false} MergePropsDistinct(ls: seq<JProperty>, r: JToken, n: nat)
    requires r.JObject? && n <= |r.props| && DistinctNames(ls)
    ensures DistinctNames(MergeProps(ls, r, n))
    decreases n
  {
    if n > 0 {
      var acc := MergeProps(ls, r, n - 1);
      var p := r.props[n - 1];
      MergePropsDistinct(ls, r, n - 1);
      match IndexOf(acc, p.name)
      case None =>
        var ms := acc + [p];
        assert forall i :: 0 <= i < |acc| ==> ms[i] == acc[i];
      case Some(i) =>
        var ms := acc[i := JProperty(p.name, MergeValue(acc[i].value, p.value))];
        assert forall j :: 0 <= j < |acc| ==> ms[j].name == acc[j].name;
    }
  }

  /** `MergeWith`: when one side is null or empty the other is the result (null
      when both are); otherwise the left token must be an object, into which
      the right is merged. Merging a token that is not an object changes nothing. */
  function MergeWith(left: Option<JToken>, right: Option<JToken>): (r: Result<Option<JToken>, JsonFault>)
    ensures IsNullOrEmpty(left) && IsNullOrEmpty(right) ==> r == Success(None)
    ensures IsNullOrEmpty(left) && !IsNullOrEmpty(right) ==> r == Success(right)
    ensures !IsNullOrEmpty(left) && IsNullOrEmpty(right) ==> r == Success(left)
    ensures !IsNullOrEmpty(left) && !IsNullOrEmpty(right) ==>
              && (r.Failure? <==> !left.value.JObject?)
              && (r.Success? ==> r.value.Some? && r.value.value.JObject?)
              && (r.Success? && !right.value.JObject? ==> r == Success(left))
  {
    if IsNullOrEmpty(left) && IsNullOrEmpty(right) then Success(None)
    else if IsNullOrEmpty(left) then Success(right)
    else if IsNullOrEmpty(right) then Success(left)
    else if !left.value.JObject? then Failure(InvalidCast)
    else if !right.value.JObject? then Success(left)
    else Success(Some(MergeValue(left.value, right.value)))
  }

  /** The merge rules for one property name of two objects: a name only on the
      left survives, a name only on the right is added, a right value that is
      not an object (a scalar, an array, an explicit null) replaces the left
      one, and two objects under the same name merge recursively. */
  lemma {:induction false} MergeWithProperty(left: JToken, right: JToken, name: string)
    requires left.JObject? && right.JObject? && right.props != [] && left.props != []
    requires DistinctNames(right.props)
    ensures MergeWith(Some(left), Some(right)).Success?
    ensures var m := MergeWith(Some(left), Some(right)).value.value.props;
            && (Get(right.props, name).None? ==> Get(m, name) == Get(left.props, name))
            && (Get(left.props, name).None? ==> Get(m, name) == Get(right.props, name))
            && (Get(right.props, name).Some? && !Get(right.props, name).value.JObject? ==>
                  Get(m, name) == Get(right.props, name))
            && (Get(left.props, name).Some? && Get(right.props, name).Some?
                && Get(left.props, name).value.JObject? && Get(right.props, name).value.JObject? ==>
                  Get(m, name) == Some(MergeValue(Get(left.props, name).value, Get(right.props, name).value)))
  {
    MergeValueLookup(left, right, name);
  }

  /** Arrays are not merged element-wise: the right-hand array replaces the left. */
  lemma {:induction false} ArraysReplaced(l: seq<JToken>, r: seq<JToken>)
    ensures MergeValue(JArray(l), JArray(r)) == JArray(r)
  {
  }

  /** The objects of the null-merging example. */
  function NullMergeLeft(): JToken {
    JObject([JProperty("Id", JString("123")), JProperty("LastName", JNull),
             JProperty("Contact", JObject([JProperty("Mail", JString("testmail@youforce.net"))]))])
  }

  function NullMergeRight(): JToken {
    JObject([JProperty("Id", JNull), JProperty("FirstName", JString("testname")),
             JProperty("LastName", JString("testsurname"))])
  }

  /** The names the example looks up, on either side. */
  lemma {:induction false} NullMergeNames()
    ensures DistinctNames(NullMergeRight().props)
    ensures Get(NullMergeRight().props, "Id") == Some(JNull)
    ensures Get(NullMergeRight().props, "LastName") == Some(JString("testsurname"))
    ensures Get(NullMergeRight().props, "FirstName") == Some(JString("testname"))
    ensures Get(NullMergeRight().props, "Contact").None?
    ensures Get(NullMergeLeft().props, "FirstName").None?
  {
    var l := NullMergeLeft();
    var r := NullMergeRight();
    assert forall a, b :: 0 <= a < b < |r.props| ==> |r.props[a].name| != |r.props[b].name|;
    assert IndexOf(r.props, "LastName") == Some(2) by {
      assert |r.props[0].name| != |"LastName"| && |r.props[1].name| != |"LastName"|;
    }
    assert IndexOf(r.props, "FirstName") == Some(1) by {
      assert |r.props[0].name| != |"FirstName"|;
    }
    assert forall j :: 0 <= j < |l.props| ==> |l.props[j].name| != |"FirstName"|;
    assert forall j :: 0 <= j < |r.props| ==> |r.props[j].name| != |"Contact"|;
  }

  /** The merge of two objects shaped like the example's. */
  lemma {:induction false} NullMergeRule(l: JToken, r: JToken)
    requires l.JObject? && r.JObject? && l.props != [] && r.props != [] && DistinctNames(r.props)
    requires Get(r.props, "Id") == Some(JNull)
    requires Get(r.props, "LastName") == Some(JString("testsurname"))
    requires Get(r.props, "FirstName") == Some(JString("testname"))
    requires Get(r.props, "Contact").None? && Get(l.props, "FirstName").None?
    ensures MergeWith(Some(l), Some(r)).Success?
    ensures var m := MergeWith(Some(l), Some(r)).value.value.props;
            && Get(m, "Id") == Some(JNull)
            && Get(m, "LastName") == Some(JString("testsurname"))
            && Get(m, "FirstName") == Some(JString("testname"))
            && Get(m, "Contact") == Get(l.props, "Contact")
  {
    MergeWithProperty(l, r, "Id");
    MergeWithProperty(l, r, "LastName");
    MergeWithProperty(l, r, "FirstName");
    MergeWithProperty(l, r, "Contact");
  }

  /** The explicit null on the right wins over "123", the right's last name
      wins over the left's null, and the nested contact survives untouched. */
  lemma {:induction false} NullMergeExample()
    ensures MergeWith(Some(NullMergeLeft()), Some(NullMergeRight())).Success?
    ensures var m := MergeWith(Some(NullMergeLeft()), Some(NullMergeRight())).value.value.props;
            && Get(m, "Id") == Some(JNull)
            && Get(m, "LastName") == Some(JString("testsurname"))
            && Get(m, "FirstName") == Some(JString("testname"))
            && Get(m, "Contact") == Get(NullMergeLeft().props, "Contact")
  {
    NullMergeNames();
    NullMergeRule(NullMergeLeft(), NullMergeRight());
  }

  // ---------------------------------------------------------------------
  // SelectTokenCaseInsensitive
  // ---------------------------------------------------------------------

  /** `SelectTokenCaseInsensitive`: the value of the top-level property named
      `path`, an exact match first and otherwise the first name equal to it
      ignoring case; null when no name matches. A null token throws at the
      copy, and a token that is not an object throws at the cast. */
  function SelectTokenCaseInsensitive(token: Option<JToken>, path: string): (r: Result<Option<JToken>, JsonFault>)
    ensures token.None? <==> r == Failure(NullReference)
    ensures r.Failure? <==> token.None? || !token.value.JObject?
    ensures r.Success? ==>
              var j := token.value;
              && (r.value.None? <==> forall k :: 0 <= k < |j.props| ==> !Text.EqualsIgnoreCase(j.props[k].name, path))
              && (r.value.Some? ==>
                    exists k :: 0 <= k < |j.props| && Text.EqualsIgnoreCase(j.props[k].name, path)
                                && j.props[k].value == r.value.value)
              && (Get(j.props, path).Some? ==> r.value == Get(j.props, path))
              && (Get(j.props, path).None? && IndexOfIgnoreCase(j.props, path).Some? ==>
                    r.value == Some(j.props[IndexOfIgnoreCase(j.props, path).value].value))
  {
    if token.None? then Failure(NullReference)
    else if !token.value.JObject? then Failure(InvalidCast)
    else
      var j := token.value;
      match IndexOf(j.props, path)
      case Some(i) => Success(Some(j.props[i].value))
      case None =>
        match IndexOfIgnoreCase(j.props, path)
        case Some(i) => Success(Some(j.props[i].value))
        case None => Success(None)
  }

  /** The lookup example: "lastname" finds "LastName", "nonExistingNode" finds nothing. */
  lemma {:induction false} SelectExample()
    ensures var j := JObject([JProperty("Id", JString("123")), JProperty("LastName", JString("testname")),
                              JProperty("AccountName", JString("test@youforce.net"))]);
            && SelectTokenCaseInsensitive(Some(j), "lastname") == Success(Some(JString("testname")))
            && SelectTokenCaseInsensitive(Some(j), "nonExistingNode") == Success(None)
  {
    var j := JObject([JProperty("Id", JString("123")), JProperty("LastName", JString("testname")),
                      JProperty("AccountName", JString("test@youforce.net"))]);
    Text.EqualsIgnoreCaseExample();
    assert forall k :: 0 <= k < |j.props| ==> j.props[k].name != "lastname" by {
      assert j.props[1].name[0] != "lastname"[0];
    }
    assert forall k :: 0 <= k < |j.props| && k != 1 ==> |Text.FoldCase(j.props[k].name)| != |Text.FoldCase("lastname")|;
    assert forall k :: 0 <= k < |j.props| && k != 1 ==> |Text.FoldCase(j.props[k].name)| != |Text.FoldCase("nonExistingNode")|;
  }

  // ---------------------------------------------------------------------
  // WalkNode
  // ---------------------------------------------------------------------

  /** The properties `WalkNode` hands to its action, in order: for an object,
      each property followed by the walk of its value; for an array, the walk
      of each item; nothing for a scalar. */
  function Walk(j: JToken): seq<JProperty>
    decreases j, 1
  {
    match j
    case JObject(ps) => WalkProps(j, |ps|)
    case JArray(items) => WalkItems(j, |items|)
    case _ => []
  }

  function WalkProps(j: JToken, n: nat): seq<JProperty>
    requires j.JObject? && n <= |j.props|
    decreases j, 0, n
  {
    if n == 0 then [] else WalkProps(j, n - 1) + [j.props[n - 1]] + Walk(j.props[n - 1].value)
  }

  function WalkItems(j: JToken, n: nat): seq<JProperty>
    requires j.JArray? && n <= |j.items|
    decreases j, 0, n
  {
    if n == 0 then [] else WalkItems(j, n - 1) + Walk(j.items[n - 1])
  }

  /** `WalkNode(node, action)`: a null node is not walked. */
  function WalkNode(node: Option<JToken>): (visited: seq<JProperty>)
    ensures node.None? ==> visited == []
  {
    match node
    case None => []
    case Some(j) => Walk(j)
  }

  /** `p` is a property of some object inside `j`, looking through objects and arrays. */
  ghost predicate PropertyIn(p: JProperty, j: JToken)
    decreases j
  {
    match j
    case JObject(ps) => exists k :: 0 <= k < |ps| && (ps[k] == p || PropertyIn(p, ps[k].value))
    case JArray(items) => exists k :: 0 <= k < |items| && PropertyIn(p, items[k])
    case _ => false
  }

  /** The walk visits exactly the properties of the nested objects, objects
      inside arrays included. */
  lemma {:induction false} WalkExact(p: JProperty, j: JToken)
    ensures p in Walk(j) <==> PropertyIn(p, j)
    decreases j, 1
  {
    match j
    case JObject(ps) => WalkPropsExact(p, j, |ps|);
    case JArray(items) => WalkItemsExact(p, j, |items|);
    case _ =>
  }

  lemma {:induction false} WalkPropsExact(p: JProperty, j: JToken, n: nat)
    requires j.JObject? && n <= |j.props|
    ensures p in WalkProps(j, n) <==> exists k :: 0 <= k < n && (j.props[k] == p || PropertyIn(p, j.props[k].value))
    decreases j, 0, n
  {
    if n > 0 {
      WalkPropsExact(p, j, n - 1);
      WalkExact(p, j.props[n - 1].value);
    }
  }

  lemma {:induction false} WalkItemsExact(p: JProperty, j: JToken, n: nat)
    requires j.JArray? && n <= |j.items|
    ensures p in WalkItems(j, n) <==> exists k :: 0 <= k < n && PropertyIn(p, j.items[k])
    decreases j, 0, n
  {
    if n > 0 {
      WalkItemsExact(p, j, n - 1);
      WalkExact(p, j.items[n - 1]);
    }
  }

  /** Parents come before their children: each visited property is followed
      immediately by the whole walk of its value. */
  lemma {:induction false} WalkPreorder(j: JToken, i: nat)
    requires i < |Walk(j)|
    ensures Walk(Walk(j)[i].value) <= Walk(j)[i + 1..]
    decreases j, 1
  {
    match j
    case JObject(ps) => WalkPropsPreorder(j, |ps|, i);
    case JArray(items) => WalkItemsPreorder(j, |items|, i);
  }

  lemma {:induction false} WalkPropsPreorder(j: JToken, n: nat, i: nat)
    requires j.JObject? && n <= |j.props| && i < |WalkProps(j, n)|
    ensures Walk(WalkProps(j, n)[i].value) <= WalkProps(j, n)[i + 1..]
    decreases j, 0, n
  {
    var a := WalkProps(j, n - 1);
    var p := j.props[n - 1];
    var w := Walk(p.value);
    var s := WalkProps(j, n);
    assert s == a + [p] + w;
    if i < |a| {
      WalkPropsPreorder(j, n - 1, i);
      assert s[i] == a[i];
      assert a[i + 1..] <= s[i + 1..];
    } else if i == |a| {
      assert s[i + 1..] == w;
    } else {
      WalkPreorder(p.value, i - |a| - 1);
      assert s[i] == w[i - |a| - 1];
      assert s[i + 1..] == w[i - |a|..];
    }
  }

  lemma {:induction false} WalkItemsPreorder(j: JToken, n: nat, i: nat)
    requires j.JArray? && n <= |j.items| && i < |WalkItems(j, n)|
    ensures Walk(WalkItems(j, n)[i].value) <= WalkItems(j, n)[i + 1..]
    decreases j, 0, n
  {
    var b := WalkItems(j, n - 1);
    var w := Walk(j.items[n - 1]);
    var s := WalkItems(j, n);
    assert s == b + w;
    if i < |b| {
      WalkItemsPreorder(j, n - 1, i);
      assert s[i] == b[i];
      assert b[i + 1..] <= s[i + 1..];
    } else {
      WalkPreorder(j.items[n - 1], i - |b|);
      assert s[i] == w[i - |b|];
      assert s[i + 1..] == w[i - |b| + 1..];
    }
  }
}
