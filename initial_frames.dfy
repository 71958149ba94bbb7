/** The frame a method's code starts with (`setupInitialFrame` of both code
    analyzers): the receiver in local 0 for an instance method, then one
    store per parameter of the method descriptor, a category-2 parameter
    taking two local slots. */
module InitialFrames {
  import opened Wrappers
  import opened JvmTypes
  import opened FrameStates
  import opened FrameUpdates

  /** What the analyzers read of the method: whether it is static, whether
      it is a constructor, the class it belongs to and its parameter types
      (the descriptor already parsed, since descriptor parsing is not part
      of this model). */
  datatype MethodInfo = MethodInfo(isStatic: bool, isConstructor: bool, classType: JvmType, parameters: seq<JvmType>)

  /** The locals the parameter values occupy: each value in one slot, and a
      category-2 value followed by `top`. */
  function Layout<V>(d: Domain<V>, vs: seq<V>): seq<V> {
    if vs == [] then [] else [vs[0]] + (if d.category2(vs[0]) then [d.top] else []) + Layout(d, vs[1..])
  }

  /** The values of the parameter types; `void` has none. */
  function ParameterValues<V>(d: Domain<V>, ps: seq<JvmType>): (r: Result<seq<V>>)
    ensures r.Success? <==> forall k :: 0 <= k < |ps| ==> !ps[k].IsVoidType()
    ensures r.Success? ==> |r.value| == |ps| && forall k :: 0 <= k < |ps| ==> ValueFor(d, ps[k]) == Success(r.value[k])
  {
    if ps == [] then Success([])
    else
      var v :- ValueFor(d, ps[0]);
      var rest :- ParameterValues(d, ps[1..]);
      assert forall k :: 1 <= k < |ps| ==> ps[k] == ps[1..][k - 1];
      Success([v] + rest)
  }

  /** The stores of the parameters from local `i` on. */
  function StoreParameters<V>(d: Domain<V>, f: FrameState<V>, i: nat, ps: seq<JvmType>): Result<FrameState<V>>
    decreases |ps|
  {
    if ps == [] then Success(f)
    else
      var v :- ValueFor(d, ps[0]);
      var g :- Store(f, i, v, d.top, d.category2);
      StoreParameters(d, g, i + (if d.category2(v) then 2 else 1), ps[1..])
  }

  /** The receiver (`thisValue` for an instance method other than a
      constructor, `uninitializedThis` for a constructor) and the
      parameters, stored from local 0. */
  function InitialFrame<V>(d: Domain<V>, m: MethodInfo, uninitializedThis: V): Result<FrameState<V>> {
    if m.isStatic then StoreParameters(d, FrameState([], []), 0, m.parameters)
    else
      var receiver := if m.isConstructor then uninitializedThis else d.reference(m.classType);
      var f :- Store(FrameState([], []), 0, receiver, d.top, d.category2);
      StoreParameters(d, f, 1, m.parameters)
  }

  /** Storing at the end of the locals appends the value, and `top` after a
      category-2 value. */
  lemma StoreAtEnd<V>(d: Domain<V>, f: FrameState<V>, v: V)
    ensures Store(f, |f.variables|, v, d.top, d.category2) ==
      Success(FrameState(f.variables + [v] + (if d.category2(v) then [d.top] else []), f.stack))
  {
    var i := |f.variables|;
    StoreMeaning(f, i, v, d.top, d.category2);
    var g := Store(f, i, v, d.top, d.category2).value;
    var want := f.variables + [v] + (if d.category2(v) then [d.top] else []);
    assert |g.variables| == |want|;
    forall j | 0 <= j < |want|
      ensures g.variables[j] == want[j]
    {
      if j < i {
        assert g.variables[j] == f.variables[j];
      }
    }
    assert g.variables == want;
  }

  /** Storing the parameters at the end of the locals appends their layout,
      and fails exactly when a parameter type is `void`. */
  lemma {:induction false} StoreParametersAppends<V>(d: Domain<V>, f: FrameState<V>, ps: seq<JvmType>)
    ensures StoreParameters(d, f, |f.variables|, ps).Success? <==> ParameterValues(d, ps).Success?
    ensures ParameterValues(d, ps).Success? ==>
      StoreParameters(d, f, |f.variables|, ps).value ==
      FrameState(f.variables + Layout(d, ParameterValues(d, ps).value), f.stack)
    decreases |ps|
  {
    if ps != [] {
      ParameterValuesStep(d, ps);
      if ValueFor(d, ps[0]).Success? {
        var v := ValueFor(d, ps[0]).value;
        var g := FrameState(f.variables + [v] + (if d.category2(v) then [d.top] else []), f.stack);
        StoreParametersStep(d, f, ps);
        StoreParametersAppends(d, g, ps[1..]);
        if ParameterValues(d, ps).Success? {
          var rest := ParameterValues(d, ps[1..]).value;
          var slots := if d.category2(v) then [d.top] else [];
          LayoutCons(d, v, rest);
          Regroup(f.variables, [v] + slots, Layout(d, rest));
          Regroup(f.variables, [v], slots);
        }
      }
    }
  }

  /** `storeParameters` of a non-empty list stores the first value at the
      end of the locals and goes on after its slots. */
  lemma StoreParametersStep<V>(d: Domain<V>, f: FrameState<V>, ps: seq<JvmType>)
    requires ps != [] && ValueFor(d, ps[0]).Success?
    ensures var v := ValueFor(d, ps[0]).value;
      var g := FrameState(f.variables + [v] + (if d.category2(v) then [d.top] else []), f.stack);
      |g.variables| == |f.variables| + (if d.category2(v) then 2 else 1) &&
      StoreParameters(d, f, |f.variables|, ps) == StoreParameters(d, g, |g.variables|, ps[1..])
  {
    StoreAtEnd(d, f, ValueFor(d, ps[0]).value);
  }

  /** The values of a non-empty list: the first type's value, then the rest's. */
  lemma ParameterValuesStep<V>(d: Domain<V>, ps: seq<JvmType>)
    requires ps != []
    ensures ParameterValues(d, ps).Success? <==>
      ValueFor(d, ps[0]).Success? && ParameterValues(d, ps[1..]).Success?
    ensures ParameterValues(d, ps).Success? ==>
      ParameterValues(d, ps).value == [ValueFor(d, ps[0]).value] + ParameterValues(d, ps[1..]).value
  {
  }

  lemma Regroup<T>(a: seq<T>, b: seq<T>, c: seq<T>)
    ensures a + (b + c) == a + b + c
  {
  }

  lemma LayoutCons<V>(d: Domain<V>, v: V, rest: seq<V>)
    ensures Layout(d, [v] + rest) == [v] + (if d.category2(v) then [d.top] else []) + Layout(d, rest)
  {
    assert ([v] + rest)[1..] == rest;
  }

  /** The initial frame has an empty stack and holds the receiver of an
      instance method in local 0 followed by the layout of the parameter
      values; it fails exactly when a parameter type is `void`. */
  lemma InitialFrameLayout<V>(d: Domain<V>, m: MethodInfo, uninitializedThis: V)
    requires !d.category2(uninitializedThis) && !d.category2(d.reference(m.classType))
    ensures InitialFrame(d, m, uninitializedThis).Success? <==> ParameterValues(d, m.parameters).Success?
    ensures InitialFrame(d, m, uninitializedThis).Success? ==>
      var receiver := if m.isConstructor then uninitializedThis else d.reference(m.classType);
      var receiverSlots := if m.isStatic then [] else [receiver];
      InitialFrame(d, m, uninitializedThis).value ==
      FrameState(receiverSlots + Layout(d, ParameterValues(d, m.parameters).value), [])
  {
    var empty: FrameState<V> := FrameState([], []);
    if m.isStatic {
      StoreParametersAppends(d, empty, m.parameters);
    } else {
      var receiver := if m.isConstructor then uninitializedThis else d.reference(m.classType);
      StoreAtEnd(d, empty, receiver);
      var f := Store(empty, 0, receiver, d.top, d.category2).value;
      StoreParametersAppends(d, f, m.parameters);
    }
  }

  /** Each parameter value sits at the local index the analyzers advance
      to: one past the previous parameter, two past a category-2 one. */
  function ParameterIndex<V>(d: Domain<V>, start: nat, vs: seq<V>, k: nat): nat
    requires k <= |vs|
  {
    if k == 0 then start else ParameterIndex(d, start, vs, k - 1) + (if d.category2(vs[k - 1]) then 2 else 1)
  }

  lemma {:induction false} LayoutIndex<V>(d: Domain<V>, vs: seq<V>, k: nat)
    requires k < |vs|
    ensures ParameterIndex(d, 0, vs, k) < |Layout(d, vs)|
    ensures Layout(d, vs)[ParameterIndex(d, 0, vs, k)] == vs[k]
    ensures d.category2(vs[k]) ==>
      ParameterIndex(d, 0, vs, k) + 1 < |Layout(d, vs)| && Layout(d, vs)[ParameterIndex(d, 0, vs, k) + 1] == d.top
  {
    var head := [vs[0]] + (if d.category2(vs[0]) then [d.top] else []);
    assert Layout(d, vs) == head + Layout(d, vs[1..]);
    if k > 0 {
      LayoutIndex(d, vs[1..], k - 1);
      IndexShift(d, vs, k, |head|);
    }
  }

  /** Dropping the first value moves every later index down by its size. */
  lemma {:induction false} IndexShift<V>(d: Domain<V>, vs: seq<V>, k: nat, size: nat)
    requires 0 < k <= |vs| && size == (if d.category2(vs[0]) then 2 else 1)
    ensures ParameterIndex(d, 0, vs, k) == size + ParameterIndex(d, 0, vs[1..], k - 1)
  {
    if k > 1 {
      IndexShift(d, vs, k - 1, size);
      assert vs[1..][k - 2] == vs[k - 1];
    }
  }
}
