/** Property: a named tree of status information, with lookup by a path of
    names and a JSON-like rendering. */
module PropertyTree {
  import opened Wire

  /** The values a property may hold. `Number` carries the text its
      `toString` yields; `Text` stands for any other object and carries its
      `toString`. */
  datatype Value =
    | Null
    | Number(digits: string)
    | Boolean(b: bool)
    | Nested(p: Property)
    | Collection(items: seq<Value>)
    | Text(s: string)

  datatype Property = Property(name: string, value: Value, properties: seq<Property>)

  /** constructor(name, value): a leaf without children. */
  function Leaf(name: string, value: Value): (p: Property)
    ensures p.name == name && p.value == value && p.properties == []
    ensures forall path :: GetProperty(p, path) == Success(None)
  {
    Property(name, value, [])
  }

  /** The vararg and list constructors: children and a null value. Each child
      can be looked up by its own name. */
  function Node(name: string, children: seq<Property>): (p: Property)
    ensures p.name == name && p.value == Null && p.properties == children
    ensures forall i :: 0 <= i < |children| ==> GetProperty(p, [children[i].name]) != Success(None)
  {
    var p := Property(name, Null, children);
    assert forall i :: 0 <= i < |children| ==> FirstNamed(children, children[i].name).Some?;
    p
  }

  // ---------------------------------------------------------------------
  // Lookup.

  /** The position of the first child called `name`: the element that
      `filter` followed by `forEach` reaches first. */
  function FirstNamed(ps: seq<Property>, name: string): (r: Option<nat>)
    ensures r.Some? ==> r.value < |ps| && ps[r.value].name == name
    ensures r.Some? ==> forall j :: 0 <= j < r.value ==> ps[j].name != name
    ensures r.None? <==> forall j :: 0 <= j < |ps| ==> ps[j].name != name
  {
    if ps == [] then None
    else if ps[0].name == name then Some(0)
    else
      var rest := FirstNamed(ps[1..], name);
      assert forall j :: 1 <= j < |ps| ==> ps[j] == ps[1..][j - 1];
      if rest.None? then None else Some(rest.value + 1)
  }

  /** getProperty(path...). A node without children answers null at once;
      otherwise the first path element is read, which throws for an empty
      path. */
  function GetProperty(p: Property, path: seq<string>): (r: Result<Option<Property>>)
    ensures r.Failure? <==> path == [] && p.properties != []
    ensures r.Failure? ==> r.error == IndexOutOfBounds
    ensures r.Success? && r.value.Some? ==> path != [] && r.value.value.name == path[|path| - 1]
    ensures path != [] && (forall j :: 0 <= j < |p.properties| ==> p.properties[j].name != path[0]) ==>
              r == Success(None)
    decreases p
  {
    if p.properties == [] then Success(None)
    else if path == [] then Failure(IndexOutOfBounds)
    else
      var i := FirstNamed(p.properties, path[0]);
      if i.None? then Success(None)
      else if |path| == 1 then Success(Some(p.properties[i.value]))
      else GetProperty(p.properties[i.value], path[1..])
  }

  /** Looking up `a + b` is looking up `a`, then `b` from the node reached. */
  lemma {:induction false} GetPropertyCompose(p: Property, a: seq<string>, b: seq<string>)
    requires GetProperty(p, a).Success? && GetProperty(p, a).value.Some? && b != []
    ensures GetProperty(p, a + b) == GetProperty(GetProperty(p, a).value.value, b)
    decreases p
  {
    var i := FirstNamed(p.properties, a[0]).value;
    assert (a + b)[0] == a[0];
    if |a| == 1 {
      assert (a + b)[1..] == b;
    } else {
      assert (a + b)[1..] == a[1..] + b;
      GetPropertyCompose(p.properties[i], a[1..], b);
    }
  }

  /** One step of a lookup: the first child named `path[0]`, then the rest
      of the path from there. */
  lemma {:induction false} GetPropertyStep(p: Property, i: nat, path: seq<string>)
    requires |path| >= 2 && i < |p.properties| && p.properties[i].name == path[0]
    requires forall j :: 0 <= j < i ==> p.properties[j].name != path[0]
    ensures GetProperty(p, path) == GetProperty(p.properties[i], path[1..])
  {
    assert p.properties[i].name == path[0];
  }

  lemma {:induction false} FirstNamedAppend(cs: seq<Property>, later: seq<Property>, name: string, i: nat)
    requires i < |cs| && cs[i].name == name
    ensures FirstNamed(cs + later, name) == FirstNamed(cs, name)
  {
    assert (cs + later)[i] == cs[i];
    assert forall j :: 0 <= j < |cs| ==> (cs + later)[j] == cs[j];
  }

  /** Only the first child with the name is followed: siblings after it,
      whatever their names, change nothing. */
  lemma {:induction false} FirstMatchWins(name: string, value: Value, cs: seq<Property>, later: seq<Property>,
                                          i: nat, path: seq<string>)
    requires path != [] && i < |cs| && cs[i].name == path[0]
    ensures GetProperty(Property(name, value, cs + later), path) == GetProperty(Property(name, value, cs), path)
  {
    FirstNamedAppend(cs, later, path[0], i);
    var k := FirstNamed(cs, path[0]).value;
    assert (cs + later)[k] == cs[k];
  }

  // ---------------------------------------------------------------------
  // Rendering.

  /** asJson(value, indentation). A collection is rendered by mapping its
      elements and reducing them; the reduction of an empty collection
      throws. Each reduction step indents both the text so far and the next
      element. */
  function AsJson(v: Value, indent: string): (r: Result<string>)
    ensures r.Failure? ==> r.error == EmptyReduce
    decreases v, 1
  {
    match v
    case Null => Success("null")
    case Number(digits) => Success(digits)
    case Boolean(b) => Success(if b then "true" else "false")
    case Nested(q) => ToJson(q, indent)
    case Collection(items) =>
      if items == [] then Failure(EmptyReduce)
      else
        var joined := JoinItems(items, indent);
        if joined.Failure? then joined else Success("[\n" + joined.value + "\n" + indent + "]")
    case Text(s) => Success("\"" + s + "\"")
  }

  /** The `reduce` over the rendered elements of a non-empty collection. */
  function JoinItems(items: seq<Value>, indent: string): (r: Result<string>)
    requires items != []
    ensures r.Failure? ==> r.error == EmptyReduce
    decreases items, 0
  {
    var last := AsJson(items[|items| - 1], indent + "    ");
    if |items| == 1 then last
    else
      var init := JoinItems(items[..|items| - 1], indent);
      if init.Failure? then init
      else if last.Failure? then last
      else Success(indent + "  " + init.value + ",\n" + indent + "  " + last.value)
  }

  /** toJson(indentation): `"name": ` after the indentation, then the value,
      or, for a node with children and no value, the children one level
      deeper between braces. The last branch of the source cannot be taken. */
  function ToJson(p: Property, indent: string): (r: Result<string>)
    ensures r.Success? ==> indent + "\"" + p.name + "\": " <= r.value
    ensures r.Failure? ==> r.error == EmptyReduce
    decreases p, 1
  {
    var head := indent + "\"" + p.name + "\": ";
    if !p.value.Null? || p.properties == [] then
      var v := AsJson(p.value, indent);
      if v.Failure? then v else Success(head + v.value)
    else if p.properties != [] then
      var body := JoinChildren(p.properties, indent + "  ");
      if body.Failure? then body else Success(head + "{\n" + body.value + "\n" + indent + "}")
    else
      assert false; Success(head + "null")
  }

  /** The `reduce` over the rendered children, joined by ",\n". */
  function JoinChildren(ps: seq<Property>, indent: string): (r: Result<string>)
    requires ps != []
    ensures r.Failure? ==> r.error == EmptyReduce
    decreases ps, 0
  {
    var last := ToJson(ps[|ps| - 1], indent);
    if |ps| == 1 then last
    else
      var init := JoinChildren(ps[..|ps| - 1], indent);
      if init.Failure? then init
      else if last.Failure? then last
      else Success(init.value + ",\n" + last.value)
  }

  /** toString(): the rendering without indentation. */
  function ToString(p: Property): (r: Result<string>)
    ensures r.Success? ==> "\"" + p.name + "\": " <= r.value
    ensures r == ToJson(p, "")
  {
    assert "" + "\"" + p.name + "\": " == "\"" + p.name + "\": ";
    ToJson(p, "")
  }

  /** A property renders without throwing exactly when no collection that
      the rendering reaches is empty. Children of a node that has a value
      are not rendered. */
  predicate Renderable(p: Property)
    decreases p, 1
  {
    if !p.value.Null? || p.properties == [] then ValueRenderable(p.value)
    else forall i :: 0 <= i < |p.properties| ==> Renderable(p.properties[i])
  }

  predicate ValueRenderable(v: Value)
    decreases v, 1
  {
    match v
    case Nested(q) => Renderable(q)
    case Collection(items) => items != [] && forall i :: 0 <= i < |items| ==> ValueRenderable(items[i])
    case _ => true
  }

  lemma {:induction false} ToJsonSucceeds(p: Property, indent: string)
    ensures ToJson(p, indent).Success? <==> Renderable(p)
    decreases p, 1
  {
    if !p.value.Null? || p.properties == [] {
      AsJsonSucceeds(p.value, indent);
    } else {
      JoinChildrenSucceeds(p.properties, indent + "  ");
    }
  }

  lemma {:induction false} AsJsonSucceeds(v: Value, indent: string)
    ensures AsJson(v, indent).Success? <==> ValueRenderable(v)
    decreases v, 1
  {
    match v
    case Nested(q) => ToJsonSucceeds(q, indent);
    case Collection(items) =>
      if items != [] {
        JoinItemsSucceeds(items, indent);
      }
    case _ =>
  }

  lemma {:induction false} JoinItemsSucceeds(items: seq<Value>, indent: string)
    requires items != []
    ensures JoinItems(items, indent).Success? <==> forall i :: 0 <= i < |items| ==> ValueRenderable(items[i])
    decreases items, 0
  {
    var n := |items| - 1;
    AsJsonSucceeds(items[n], indent + "    ");
    if n > 0 {
      JoinItemsSucceeds(items[..n], indent);
      assert forall i :: 0 <= i < n ==> items[..n][i] == items[i];
    }
  }

  lemma {:induction false} JoinChildrenSucceeds(ps: seq<Property>, indent: string)
    requires ps != []
    ensures JoinChildren(ps, indent).Success? <==> forall i :: 0 <= i < |ps| ==> Renderable(ps[i])
    decreases ps, 0
  {
    var n := |ps| - 1;
    ToJsonSucceeds(ps[n], indent);
    if n > 0 {
      JoinChildrenSucceeds(ps[..n], indent);
      assert forall i :: 0 <= i < n ==> ps[..n][i] == ps[i];
    }
  }

  /** `t` occurs in `s` at position k. */
  predicate OccursAt(s: string, t: string, k: nat)
  {
    k + |t| <= |s| && s[k..k + |t|] == t
  }

  /** Every child's rendering, one level deeper, occurs in the joined
      children. */
  lemma {:induction false} JoinChildrenHolds(ps: seq<Property>, indent: string, i: nat) returns (k: nat)
    requires i < |ps| && JoinChildren(ps, indent).Success?
    ensures ToJson(ps[i], indent).Success?
    ensures OccursAt(JoinChildren(ps, indent).value, ToJson(ps[i], indent).value, k)
    decreases ps
  {
    var n := |ps| - 1;
    var s := JoinChildren(ps, indent).value;
    if n == 0 {
      k := 0;
      assert s[0..|s|] == s;
    } else {
      var init, last := JoinChildren(ps[..n], indent).value, ToJson(ps[n], indent).value;
      assert s == init + ",\n" + last;
      if i == n {
        k := |init| + 2;
        assert s[k..k + |last|] == last;
      } else {
        assert ps[..n][i] == ps[i];
        k := JoinChildrenHolds(ps[..n], indent, i);
        assert s[k..k + |ToJson(ps[i], indent).value|] == init[k..k + |ToJson(ps[i], indent).value|];
      }
    }
  }

  /** A node with children and no value contains each child's rendering,
      indented two spaces further. */
  lemma {:induction false} ChildRendered(p: Property, indent: string, i: nat) returns (k: nat)
    requires p.value.Null? && i < |p.properties| && ToJson(p, indent).Success?
    ensures ToJson(p.properties[i], indent + "  ").Success?
    ensures OccursAt(ToJson(p, indent).value, ToJson(p.properties[i], indent + "  ").value, k)
  {
    var head := indent + "\"" + p.name + "\": " + "{\n";
    var body := JoinChildren(p.properties, indent + "  ").value;
    var j := JoinChildrenHolds(p.properties, indent + "  ", i);
    var child := ToJson(p.properties[i], indent + "  ").value;
    var s := ToJson(p, indent).value;
    assert s == head + body + ("\n" + indent + "}");
    k := |head| + j;
    assert s[k..k + |child|] == body[j..j + |child|];
  }

  /** A leaf renders as `"name": ` followed by its value, and a null value
      as `null`. */
  lemma {:induction false} LeafRendering(name: string, value: Value, indent: string)
    ensures ToJson(Leaf(name, value), indent) ==
              if AsJson(value, indent).Failure? then AsJson(value, indent)
              else Success(indent + "\"" + name + "\": " + AsJson(value, indent).value)
    ensures ToJson(Leaf(name, Null), indent) == Success(indent + "\"" + name + "\": " + "null")
  {
  }

  /** A node with a single child renders the child between braces, two
      spaces further in. */
  lemma {:induction false} SingleChildRendering(name: string, child: Property, indent: string)
    requires ToJson(child, indent + "  ").Success?
    ensures ToJson(Node(name, [child]), indent) ==
              Success(indent + "\"" + name + "\": " + "{\n" + ToJson(child, indent + "  ").value + "\n" + indent + "}")
  {
  }
}
