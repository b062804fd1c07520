/** Attributes of variables and their aliases in the C++ interface (Variable.cpp). */
module AliasAttributes {
  import opened Expressions
  import opened Options

  type Key = string

  type Attributes = map<Key, Expr>

  /** MX::operator-: the minus of a constant is a constant. */
  function Negate(e: Expr): Expr {
    if e.Const? then Const(-e.value) else Neg(e)
  }

  predicate IsNegatedKey(key: Key) {
    key == "start" || key == "min" || key == "max" || key == "nominal" || key == "bindingExpression" ||
        key == "evaluatedBindingExpression"
  }

  /** Minimum and maximum change places under negation. */
  function KeyForAlias(negated: bool, key: Key): Key {
    if negated && key == "min" then "max" else if negated && key == "max" then "min" else key
  }

  // ----- A chain of aliases as the list of their negations -----

  /** The attribute of the first alias of the chain: negations[0] is its own. */
  function GetVia(negations: seq<bool>, root: Key -> Option<Expr>, key: Key): Option<Expr> {
    if negations == [] then root(key)
    else
      var v := GetVia(negations[1..], root, KeyForAlias(negations[0], key));
      if v.Some? && negations[0] && IsNegatedKey(key) then Some(Negate(v.value)) else v
  }

  function KeyVia(negations: seq<bool>, key: Key): Key {
    if negations == [] then key
    else KeyVia(negations[1..], if negations[0] && IsNegatedKey(key) then KeyForAlias(negations[0], key) else key)
  }

  function ValueVia(negations: seq<bool>, key: Key, val: Expr): Expr {
    if negations == [] then val
    else if negations[0] && IsNegatedKey(key) then ValueVia(negations[1..], KeyForAlias(negations[0], key), Negate(val))
    else ValueVia(negations[1..], key, val)
  }

  /** An odd number of negations. */
  function Flipped(negations: seq<bool>): bool {
    negations != [] && negations[0] != Flipped(negations[1..])
  }

  lemma NoAlias(key: Key, val: Expr)
    ensures KeyVia([], key) == key && ValueVia([], key, val) == val
  {}

  lemma NegateValue(I: Interp, env: Env, e: Expr)
    ensures Eval(I, env, Negate(e)) == -Eval(I, env, e)
    ensures Negate(e).Const? <==> e.Const?
    ensures e.Const? ==> Negate(Negate(e)) == e
  {}

  /** What is stored at the root for the alias's value is what the alias gives back. */
  lemma {:induction false} RoundTrip(I: Interp, env: Env, negations: seq<bool>, root: Key -> Option<Expr>, key: Key,
                                     val: Expr)
    requires root(KeyVia(negations, key)) == Some(ValueVia(negations, key, val))
    ensures GetVia(negations, root, key).Some? && Eval(I, env, GetVia(negations, root, key).value) == Eval(I, env, val)
    ensures val.Const? ==> GetVia(negations, root, key).value == val
    ensures GetVia(negations, root, key).value.Const? <==> val.Const?
  {
    if negations != [] {
      var next := KeyForAlias(negations[0], key);
      if negations[0] && IsNegatedKey(key) {
        NegateValue(I, env, val);
        RoundTrip(I, env, negations[1..], root, next, Negate(val));
        NegateValue(I, env, GetVia(negations[1..], root, next).value);
      } else {
        RoundTrip(I, env, negations[1..], root, key, val);
      }
    }
  }

  /** Constant through any aliases exactly when constant at the root. */
  lemma {:induction false} ConstantVia(negations: seq<bool>, root: Key -> Option<Expr>, key: Key)
    requires key != "min" && key != "max"
    ensures GetVia(negations, root, key).Some? <==> root(key).Some?
    ensures root(key).Some? ==> (GetVia(negations, root, key).value.Const? <==> root(key).value.Const?)
    ensures KeyVia(negations, key) == key
  {
    if negations != [] { ConstantVia(negations[1..], root, key); }
  }

  lemma {:induction false} ValueViaConstant(negations: seq<bool>, key: Key, val: Expr)
    ensures ValueVia(negations, key, val).Const? <==> val.Const?
  {
    if negations != [] {
      ValueViaConstant(negations[1..], KeyForAlias(negations[0], key), Negate(val));
      ValueViaConstant(negations[1..], key, val);
    }
  }

  ghost predicate AtLeast(I: Interp, env: Env, x: real, bound: Option<Expr>) {
    bound.Some? ==> x >= Eval(I, env, bound.value)
  }

  ghost predicate AtMost(I: Interp, env: Env, x: real, bound: Option<Expr>) {
    bound.Some? ==> x <= Eval(I, env, bound.value)
  }

  /** x is within the bounds of the variable with these attributes. */
  ghost predicate Within(I: Interp, env: Env, x: real, attribute: Key -> Option<Expr>) {
    AtLeast(I, env, x, attribute("min")) && AtMost(I, env, x, attribute("max"))
  }

  /** x is within the bounds of an alias exactly when x, negated as often as the alias, is within the
      bounds of the root. */
  lemma {:induction false} BoundsVia(I: Interp, env: Env, negations: seq<bool>, root: Key -> Option<Expr>, x: real)
    ensures AtLeast(I, env, x, GetVia(negations, root, "min")) && AtMost(I, env, x, GetVia(negations, root, "max")) <==>
            Within(I, env, if Flipped(negations) then -x else x, root)
  {
    if negations != [] {
      if negations[0] {
        BoundsVia(I, env, negations[1..], root, -x);
        var lo, hi := GetVia(negations[1..], root, "min"), GetVia(negations[1..], root, "max");
        if lo.Some? { NegateValue(I, env, lo.value); }
        if hi.Some? { NegateValue(I, env, hi.value); }
      } else {
        BoundsVia(I, env, negations[1..], root, x);
      }
    }
  }

  // ----- Variables -----

  // ----- What an alias reads and stores, attribute by attribute -----

  /** x, negated under an odd number of negations. */
  function Turned(odd: bool, x: real): real {
    if odd then -x else x
  }

  /** to is from up to sign: negated under an odd number of negations. */
  ghost predicate UpToSign(I: Interp, env: Env, odd: bool, from: Option<Expr>, to: Option<Expr>) {
    && (to.Some? <==> from.Some?)
    && (from.Some? ==> Eval(I, env, to.value) == Turned(odd, Eval(I, env, from.value)))
  }

  /** What is read through a chain: the root's start, nominal value and bindings up to sign, its bounds up
      to sign and exchanged under an odd number of negations, and any other attribute as it is. */
  lemma {:induction false} ReadsVia(I: Interp, env: Env, negations: seq<bool>, root: Key -> Option<Expr>, key: Key)
    ensures key in {"start", "nominal", "bindingExpression", "evaluatedBindingExpression"} ==>
              UpToSign(I, env, Flipped(negations), root(key), GetVia(negations, root, key))
    ensures var lower := if Flipped(negations) then root("max") else root("min");
            UpToSign(I, env, Flipped(negations), lower, GetVia(negations, root, "min"))
    ensures var upper := if Flipped(negations) then root("min") else root("max");
            UpToSign(I, env, Flipped(negations), upper, GetVia(negations, root, "max"))
    ensures key !in {"start", "nominal", "bindingExpression", "evaluatedBindingExpression", "min", "max"} ==>
              GetVia(negations, root, key) == root(key)
  {
    if negations != [] {
      ReadsVia(I, env, negations[1..], root, key);
      forall k ensures GetVia(negations[1..], root, k).Some? ==>
                         Eval(I, env, Negate(GetVia(negations[1..], root, k).value)) ==
                             -Eval(I, env, GetVia(negations[1..], root, k).value)
      {
        if GetVia(negations[1..], root, k).Some? { NegateValue(I, env, GetVia(negations[1..], root, k).value); }
      }
    }
  }

  /** What is stored through a chain: at the same attribute, or the other bound under an odd number of
      negations, and up to sign for start, bounds, nominal value and bindings. */
  lemma {:induction false} StoresVia(I: Interp, env: Env, negations: seq<bool>, key: Key, val: Expr)
    ensures KeyVia(negations, key) ==
              if Flipped(negations) && key == "min" then "max"
              else if Flipped(negations) && key == "max" then "min"
              else key
    ensures key in {"start", "nominal", "bindingExpression", "evaluatedBindingExpression", "min", "max"} ==>
              Eval(I, env, ValueVia(negations, key, val)) == Turned(Flipped(negations), Eval(I, env, val))
    ensures key !in {"start", "nominal", "bindingExpression", "evaluatedBindingExpression", "min", "max"} ==>
              ValueVia(negations, key, val) == val
  {
    if negations != [] {
      var turned := negations[0] && IsNegatedKey(key);
      NegateValue(I, env, val);
      StoresVia(I, env, negations[1..], if turned then KeyForAlias(negations[0], key) else key,
                if turned then Negate(val) else val);
    }
  }

  class Owner {
    var dirty: bool

    method SetDirty()
      modifies `dirty
      ensures dirty
    {
      dirty := true;
    }
  }

  class Variable {
    const model: Owner
    const declared: Option<Attributes>
    var attributes: Attributes
    var myModelVariable: Variable?
    var negated: bool
    /** The variable, the one it is an alias of, and so on. */
    ghost var chain: seq<Variable>

    ghost predicate Valid()
      reads this, chain
      decreases |chain|
    {
      && chain != [] && chain[0] == this
      && (if myModelVariable == null then |chain| == 1
          else
            && |chain| > 1 && chain[1] == myModelVariable && myModelVariable.chain == chain[1..]
            && this !in chain[1..] && myModelVariable.model == model && myModelVariable.Valid())
    }

    constructor (model: Owner, declared: Option<Attributes>)
      ensures Valid() && chain == [this] && this.model == model && this.declared == declared && attributes == map[]
      ensures !negated
    {
      this.model, this.declared, attributes, myModelVariable, negated := model, declared, map[], null, false;
      chain := [this];
    }

    /** Makes this variable an alias. */
    method SetAlias(v: Variable)
      requires v.Valid() && this !in v.chain && v.model == model
      modifies `myModelVariable, `chain
      ensures Valid() && myModelVariable == v && chain == [this] + v.chain
    {
      myModelVariable := v;
      chain := [this] + v.chain;
      assert chain[1..] == v.chain;
    }

    /** The negations along the chain. */
    ghost function Negations(): seq<bool>
      requires Valid()
      reads this, chain
      decreases |chain|
    {
      if myModelVariable == null then [] else [negated] + myModelVariable.Negations()
    }

    ghost function Root(): (r: Variable)
      requires Valid()
      reads this, chain
      ensures r in chain && r == chain[|chain| - 1]
      decreases |chain|
    {
      if myModelVariable == null then this else myModelVariable.Root()
    }

    /** An attribute of a variable that is not an alias, as set or as its type declares it. */
    static function Own(attributes: Attributes, declared: Option<Attributes>): Key -> Option<Expr> {
      (key: Key) =>
        if key in attributes then Some(attributes[key])
        else if declared.Some? && key in declared.value then Some(declared.value[key])
        else None
    }

    function GetAttribute(key: Key): (r: Option<Expr>)
      requires Valid()
      reads this, chain
      ensures r == GetVia(Negations(), Own(Root().attributes, Root().declared), key)
      decreases |chain|
    {
      if myModelVariable == null then Own(attributes, declared)(key)
      else
        var v := myModelVariable.GetAttribute(KeyForAlias(negated, key));
        assert Negations()[1..] == myModelVariable.Negations();
        if v.Some? && negated && IsNegatedKey(key) then Some(Negate(v.value)) else v
    }

    /** Asks the root, whatever the negations. */
    function HasAttributeSet(key: Key): (r: bool)
      requires Valid()
      reads this, chain
      ensures r <==> key in Root().attributes
      decreases |chain|
    {
      if myModelVariable != null then myModelVariable.HasAttributeSet(key) else key in attributes
    }

    /** Sets an attribute at the root. A constant binding may only be replaced by a constant one, and one
        that is not constant may not be replaced: then nothing changes but the dirty flag. */
    method SetAttribute(key: Key, val: Expr) returns (ok: bool)
      requires Valid()
      modifies chain`attributes, model`dirty
      ensures Valid() && Root() == old(Root()) && Negations() == old(Negations())
      ensures forall v :: v in chain && v != Root() ==> v.attributes == old(v.attributes)
      ensures ok ==>
                Root().attributes == old(Root().attributes)[KeyVia(Negations(), key) := ValueVia(Negations(), key, val)]
      ensures !ok ==> Root().attributes == old(Root().attributes)
      ensures model.dirty == (old(model.dirty) || key == "bindingExpression")
      ensures ok <==> MaySet(key, val, old(Root().attributes))
      decreases |chain|
    {
      hide GetVia, ValueVia, KeyVia;
      if key == "bindingExpression" {
        model.SetDirty();
        ConstantVia(Negations(), Own(Root().attributes, Root().declared), key);
        if HasAttributeSet("bindingExpression") {
          var bindingExpression := GetAttribute(key).value;
          if bindingExpression.Const? && !val.Const? {
            return false;
          } else if !bindingExpression.Const? {
            return false;
          }
        }
      }
      if myModelVariable != null {
        ok := SetAttributeForAlias(key, val);
      } else {
        NoAlias(key, val);
        attributes := attributes[key := val];
        ok := true;
      }
    }

    method SetAttributeForAlias(key: Key, val: Expr) returns (ok: bool)
      requires Valid() && myModelVariable != null
      modifies chain[1..]`attributes, model`dirty
      ensures Valid() && Root() == old(Root()) && Negations() == old(Negations())
      ensures forall v :: v in chain[1..] && v != Root() ==> v.attributes == old(v.attributes)
      ensures ok ==>
                Root().attributes == old(Root().attributes)[KeyVia(Negations(), key) := ValueVia(Negations(), key, val)]
      ensures !ok ==> Root().attributes == old(Root().attributes)
      ensures model.dirty == (old(model.dirty) || key == "bindingExpression")
      ensures ok <==> MaySet(key, val, old(Root().attributes))
      decreases |chain|, 0
    {
      hide GetVia;
      var k, v := key, val;
      if negated && IsNegatedKey(key) {
        k := KeyForAlias(negated, key);
        v := Negate(val);
      }
      assert Negations()[1..] == myModelVariable.Negations();
      ok := myModelVariable.SetAttribute(k, v);
      assert Negations()[1..] == myModelVariable.Negations();
    }
  }

  /** Setting an attribute and getting it returns the set value, through any chain of aliases. */
  lemma SetThenGet(I: Interp, env: Env, v: Variable, key: Key, val: Expr)
    requires v.Valid() && KeyVia(v.Negations(), key) in v.Root().attributes
    requires v.Root().attributes[KeyVia(v.Negations(), key)] == ValueVia(v.Negations(), key, val)
    ensures v.GetAttribute(key).Some? && Eval(I, env, v.GetAttribute(key).value) == Eval(I, env, val)
    ensures val.Const? ==> v.GetAttribute(key).value == val
  {
    RoundTrip(I, env, v.Negations(), Variable.Own(v.Root().attributes, v.Root().declared), key, val);
  }

  /** The signs turn exactly under an odd number of negations; negated holds their places. */
  lemma FlippedIsOdd(negations: seq<bool>, negated: set<nat>)
    requires forall i: nat :: i in negated <==> i < |negations| && negations[i]
    ensures Flipped(negations) <==> |negated| % 2 == 1
  {
    FlippedFrom(negations, 0, negated);
    assert negations[0..] == negations;
  }

  lemma {:induction false} FlippedFrom(negations: seq<bool>, k: nat, negated: set<nat>)
    requires k <= |negations| && forall i: nat :: i in negated <==> k <= i < |negations| && negations[i]
    ensures Flipped(negations[k..]) <==> |negated| % 2 == 1
    decreases |negations| - k
  {
    if k == |negations| {
      assert negated == {};
    } else {
      assert negations[k..][1..] == negations[k + 1..];
      FlippedFrom(negations, k + 1, negated - {k});
    }
  }

  /** The negations are those of the aliases along the chain, the root being none. */
  lemma {:induction false} NegationsOfChain(v: Variable)
    requires v.Valid()
    ensures |v.Negations()| == |v.chain| - 1
    ensures forall i :: 0 <= i < |v.chain| - 1 ==> v.Negations()[i] == v.chain[i].negated
    decreases |v.chain|
  {
    if v.myModelVariable != null {
      var w: Variable := v.myModelVariable;
      NegationsOfChain(w);
      assert v.Negations() == [v.negated] + w.Negations();
      forall i | 0 <= i < |v.chain| - 1 ensures v.Negations()[i] == v.chain[i].negated {
        if i > 0 { assert v.chain[i] == w.chain[i - 1]; }
      }
    }
  }

  /** An alias reads the root's attributes, as set there or declared by the type of the root. */
  lemma ReadsAttribute(I: Interp, env: Env, v: Variable, key: Key)
    requires v.Valid()
    ensures var odd, attributes, declared := Flipped(v.Negations()), v.Root().attributes, v.Root().declared;
            var own := (k: Key) => if k in attributes then Some(attributes[k])
                                   else if declared.Some? && k in declared.value then Some(declared.value[k])
                                   else None;
            && (key in {"start", "nominal", "bindingExpression", "evaluatedBindingExpression"} ==>
                  UpToSign(I, env, odd, own(key), v.GetAttribute(key)))
            && UpToSign(I, env, odd, own(if odd then "max" else "min"), v.GetAttribute("min"))
            && UpToSign(I, env, odd, own(if odd then "min" else "max"), v.GetAttribute("max"))
            && (key !in {"start", "nominal", "bindingExpression", "evaluatedBindingExpression", "min", "max"} ==>
                  v.GetAttribute(key) == own(key))
  {
    ReadsVia(I, env, v.Negations(), Variable.Own(v.Root().attributes, v.Root().declared), key);
  }

  /** x is within an alias's bounds exactly when the sign-adjusted x is within the root's. */
  lemma BoundsOfAlias(I: Interp, env: Env, v: Variable, x: real)
    requires v.Valid()
    ensures AtLeast(I, env, x, v.GetAttribute("min")) && AtMost(I, env, x, v.GetAttribute("max")) <==>
            Within(I, env, if Flipped(v.Negations()) then -x
                else x, Variable.Own(v.Root().attributes, v.Root().declared))
  {
    BoundsVia(I, env, v.Negations(), Variable.Own(v.Root().attributes, v.Root().declared), x);
  }

  /** A binding stays what it is: after any number of successful sets, in any variables of the chain, a
      constant one is constant, and one that is not constant is the same. */
  ghost predicate BindingKept(before: Attributes, after: Attributes) {
    "bindingExpression" !in before ||
    ("bindingExpression" in after && (before["bindingExpression"].Const? <==> after["bindingExpression"].Const?)
     && (!before["bindingExpression"].Const? ==> after["bindingExpression"] == before["bindingExpression"]))
  }

  lemma SetKeepsBinding(first: Attributes, before: Attributes, negations: seq<bool>, key: Key, val: Expr)
    requires BindingKept(first, before) && MaySet(key, val, before)
    ensures BindingKept(first, before[KeyVia(negations, key) := ValueVia(negations, key, val)])
  {
    ValueViaConstant(negations, key, val);
    KeyOfBinding(negations, key);
  }

  /** A call of setAttribute on a variable of the chain, reached from the root by these negations. */
  datatype SetCall = SetCall(negations: seq<bool>, key: Key, val: Expr)

  /** The attributes of the root after a call, as the contract of SetAttribute gives them. */
  ghost function AfterCall(root: Attributes, call: SetCall): Attributes {
    if MaySet(call.key, call.val, root) then root[KeyVia(call.negations, call.key) :=
        ValueVia(call.negations, call.key, call.val)] else root
  }

  ghost function AfterCalls(root: Attributes, calls: seq<SetCall>): Attributes {
    if calls == [] then root else AfterCall(AfterCalls(root, calls[..|calls| - 1]), calls[|calls| - 1])
  }

  lemma {:induction false} RunsKeepBinding(root: Attributes, calls: seq<SetCall>)
    ensures BindingKept(root, AfterCalls(root, calls))
  {
    if calls != [] {
      var before, call := AfterCalls(root, calls[..|calls| - 1]), calls[|calls| - 1];
      RunsKeepBinding(root, calls[..|calls| - 1]);
      if MaySet(call.key, call.val, before) {
        SetKeepsBinding(root, before, call.negations, call.key, call.val);
      }
    }
  }

  lemma {:induction false} KeyOfBinding(negations: seq<bool>, key: Key)
    ensures KeyVia(negations, key) == "bindingExpression" <==> key == "bindingExpression"
  {
    if negations != [] {
      KeyOfBinding(negations[1..], if negations[0] && IsNegatedKey(key) then KeyForAlias(negations[0], key) else key);
    }
  }

  /** Setting is allowed: not a binding, or the first one, or a constant for a constant. */
  ghost predicate MaySet(key: Key, val: Expr, root: Attributes) {
    key != "bindingExpression" || "bindingExpression" !in root || (root["bindingExpression"].Const? && val.Const?)
  }
}
