/** `AnnotationAwareMappingConstructor.constructJavaBean2ndStep`: the
    per-property dispatch over a mapping node's tuples before the base engine
    assigns the rest. */
module SecondStep {
  import opened Wrappers
  import opened Runtime
  import opened Seqs
  import opened Environment

  /** What the pass decided for one tuple: the tuple (its key node now typed
      `String`), the property it resolved to, whether it is removed before the
      base step, and the value a property-level custom constructor set. */
  datatype Fate = Fate(tuple: Tuple, property: Property, removed: bool, setValue: Option<JValue>)

  /** The key node retyped to `String`; nothing else in the tuple changes. */
  function RetypeKey(t: Tuple): (t': Tuple)
    ensures t'.valueNode == t.valueNode
    ensures t'.keyNode.(nodeType := t.keyNode.nodeType) == t.keyNode
    ensures t'.keyNode.nodeType == StringClass
  {
    t.(keyNode := t.keyNode.(nodeType := StringClass))
  }

  /** The catch blocks around a property-level custom constructor: a
      `YAMLException` is rethrown as is, a failure to create or access the
      constructor class is wrapped as such, anything else as "cannot set value". */
  function WrapPropertyFailure(cls: ClassName, property: Property, e: Error): (e': Error)
    ensures e'.Yaml?
    ensures e.Yaml? ==> e' == e
    ensures IsCreationFailure(e) ==> e' == Yaml(PropertyConstructorNotCreatable(cls, property.name, e))
    ensures !e.Yaml? && !IsCreationFailure(e) ==> e' == Yaml(CannotSetValue(property.name, e))
  {
    if e.Yaml? then e
    else if IsCreationFailure(e) then Yaml(PropertyConstructorNotCreatable(cls, property.name, e))
    else Yaml(CannotSetValue(property.name, e))
  }

  /** The body of that `try`: create the custom constructor, let it build the
      value (handing it the default construction), and set the value into the bean. */
  function CustomPropertyValue(env: Env, nodeToProperty: NodeToProperty, cls: ClassName, property: Property,
                               bean: JValue, valueNode: Node): (r: Result<JValue, Error>)
    ensures env.classFailure(cls).Some? ==> r == Failure(env.classFailure(cls).value)
    ensures env.classFailure(cls).None? ==>
      var built := env.customConstruct(cls, valueNode, env.construct(nodeToProperty, valueNode));
      && (built.Failure? ==> r == built)
      && (built.Success? && env.setProperty(property, bean, built.value).Some? ==>
            r == Failure(env.setProperty(property, bean, built.value).value))
      && (built.Success? && env.setProperty(property, bean, built.value).None? ==> r == built)
    ensures r.Success? ==>
      && env.customConstruct(cls, valueNode, env.construct(nodeToProperty, valueNode)) == r
      && env.setProperty(property, bean, r.value).None?
  {
    match env.classFailure(cls)
    case Some(e) => Failure(e)
    case None =>
      var value :- env.customConstruct(cls, valueNode, env.construct(nodeToProperty, valueNode));
      match env.setProperty(property, bean, value)
      case Some(e) => Failure(e)
      case None => Success(value)
  }

  /** The facts about one tuple's fate that do not depend on earlier tuples. */
  predicate FateFits(env: Env, beanType: ClassName, t: Tuple, f: Fate) {
    && t.keyNode.Scalar?
    && f.tuple == RetypeKey(t)
    && ConstructKeyString(env, f.tuple.keyNode).Success?
    && env.resolveProperty(beanType, ConstructKeyString(env, f.tuple.keyNode).value) == Success(f.property)
    && (f.property.constructBy.Some? ==> f.removed && f.setValue.Some?)
    && (f.property.constructBy.None? ==> f.setValue.None?)
    && (f.property.constructBy.None? && !f.property.IgnoresExceptions() ==> !f.removed)
  }

  /** One iteration of the loop at lines 274-325, given the node-to-property map
      so far; returns the tuple's fate and the map with its value node recorded. */
  function Step(env: Env, beanType: ClassName, bean: JValue, nodeToProperty: NodeToProperty, t: Tuple)
    : (r: Result<(Fate, NodeToProperty), Error>)
    ensures !t.keyNode.Scalar? ==> r == Failure(Yaml(KeysMustBeScalars))
    ensures t.keyNode.Scalar? && ConstructKeyString(env, RetypeKey(t).keyNode).Failure? ==>
      r == Failure(ConstructKeyString(env, RetypeKey(t).keyNode).error)
    ensures r.Success? ==> FateFits(env, beanType, t, r.value.0)
    ensures r.Success? ==> r.value.1 == nodeToProperty[t.valueNode.id := r.value.0.property]
    ensures r.Success? && r.value.0.property.constructBy.None? && r.value.0.property.IgnoresExceptions() ==>
      (r.value.0.removed <==> env.construct(r.value.1, t.valueNode).Failure?)
    ensures r.Success? && r.value.0.property.constructBy.Some? ==>
      CustomPropertyValue(env, r.value.1, r.value.0.property.constructBy.value.value, r.value.0.property, bean, t.valueNode)
        == Success(r.value.0.setValue.value)
    ensures t.keyNode.Scalar? && ConstructKeyString(env, RetypeKey(t).keyNode).Success? ==>
      var property := env.resolveProperty(beanType, ConstructKeyString(env, RetypeKey(t).keyNode).value);
      && (property.Failure? ==> r == Failure(property.error))
      && (property.Success? && property.value.constructBy.None? ==> r.Success?)
      && (property.Success? && property.value.constructBy.Some? ==>
            var cls := property.value.constructBy.value.value;
            var outcome := CustomPropertyValue(env, nodeToProperty[t.valueNode.id := property.value], cls,
                                               property.value, bean, t.valueNode);
            (r.Failure? <==> outcome.Failure?)
            && (outcome.Failure? ==> r.error == WrapPropertyFailure(cls, property.value, outcome.error)))
  {
    var keyNode :- GetKeyNode(t);
    var retyped := RetypeKey(t);
    var key :- ConstructKeyString(env, retyped.keyNode);
    var property :- env.resolveProperty(beanType, key);
    var valueNode := t.valueNode;
    var recorded := nodeToProperty[valueNode.id := property];
    if property.constructBy.Some? then
      var cls := property.constructBy.value.value;
      match CustomPropertyValue(env, recorded, cls, property, bean, valueNode)
      case Failure(e) => Failure(WrapPropertyFailure(cls, property, e))
      case Success(value) => Success((Fate(retyped, property, true, Some(value)), recorded))
    else if property.IgnoresExceptions() then
      Success((Fate(retyped, property, env.construct(recorded, valueNode).Failure?, None), recorded))
    else
      Success((Fate(retyped, property, false, None), recorded))
  }

  /** The value node of the tuple at `i` appears in no later tuple. */
  predicate LastOccurrence(ts: seq<Tuple>, i: nat)
    requires i < |ts|
  {
    forall j :: i < j < |ts| ==> ts[j].valueNode.id != ts[i].valueNode.id
  }

  /** The identities of the value nodes of `ts`. */
  function ValueIds(ts: seq<Tuple>): set<NodeId> {
    set i | 0 <= i < |ts| :: ts[i].valueNode.id
  }

  datatype PassResult = PassResult(fates: seq<Fate>, nodeToProperty: NodeToProperty)

  /** The node-to-property map after the value node of each fate, in order,
      has been recorded against the fate's property. */
  function Recorded(nodeToProperty: NodeToProperty, fates: seq<Fate>): NodeToProperty
    decreases |fates|
  {
    if |fates| == 0 then nodeToProperty
    else Recorded(nodeToProperty[fates[0].tuple.valueNode.id := fates[0].property], fates[1..])
  }

  /** `fates` are the outcomes of the first `|fates|` loop iterations: each is
      what `Step` gives for its tuple under the map the earlier iterations left. */
  predicate Threads(env: Env, beanType: ClassName, bean: JValue, nodeToProperty: NodeToProperty,
                    ts: seq<Tuple>, fates: seq<Fate>)
    requires |fates| <= |ts|
  {
    forall i :: 0 <= i < |fates| ==>
      Step(env, beanType, bean, Recorded(nodeToProperty, fates[..i]), ts[i])
        == Success((fates[i], Recorded(nodeToProperty, fates[..i + 1])))
  }

  /** One more iteration in front of a threaded run is again a threaded run. */
  lemma {:induction false} ThreadsCons(env: Env, beanType: ClassName, bean: JValue, nodeToProperty: NodeToProperty,
                                       ts: seq<Tuple>, first: Fate, recorded: NodeToProperty, rest: seq<Fate>)
    requires |ts| > 0 && |rest| < |ts|
    requires Step(env, beanType, bean, nodeToProperty, ts[0]) == Success((first, recorded))
    requires Threads(env, beanType, bean, recorded, ts[1..], rest)
    ensures Threads(env, beanType, bean, nodeToProperty, ts, [first] + rest)
    ensures Recorded(nodeToProperty, [first] + rest) == Recorded(recorded, rest)
  {
    var fates := [first] + rest;
    assert first.tuple.valueNode == ts[0].valueNode;
    assert fates[1..] == rest;
    forall i | 0 <= i < |fates|
      ensures Step(env, beanType, bean, Recorded(nodeToProperty, fates[..i]), ts[i])
           == Success((fates[i], Recorded(nodeToProperty, fates[..i + 1])))
    {
      assert Recorded(nodeToProperty, fates[..1]) == recorded by {
        assert fates[..1][1..] == [];
      }
      if i > 0 {
        assert fates[..i][1..] == rest[..i - 1];
        assert fates[..i + 1][1..] == rest[..i];
        assert ts[i] == ts[1..][i - 1];
      }
    }
  }

  /** The whole loop: every tuple in order, threading the node-to-property map;
      the first exception aborts it (`PassFollowsSteps`). */
  function Pass(env: Env, beanType: ClassName, bean: JValue, nodeToProperty: NodeToProperty, ts: seq<Tuple>)
    : (r: Result<PassResult, Error>)
    ensures r.Success? ==> |r.value.fates| == |ts|
    ensures r.Success? ==> r.value.nodeToProperty == Recorded(nodeToProperty, r.value.fates)
    ensures r.Success? ==> forall i :: 0 <= i < |ts| ==> FateFits(env, beanType, ts[i], r.value.fates[i])
    ensures |ts| > 0 && Step(env, beanType, bean, nodeToProperty, ts[0]).Failure? ==>
      r == Failure(Step(env, beanType, bean, nodeToProperty, ts[0]).error)
    decreases |ts|
  {
    if |ts| == 0 then Success(PassResult([], nodeToProperty))
    else
      var (fate, recorded) :- Step(env, beanType, bean, nodeToProperty, ts[0]);
      var rest :- Pass(env, beanType, bean, recorded, ts[1..]);
      assert forall i :: 1 <= i < |ts| ==> ts[i] == ts[1..][i - 1];
      assert fate.tuple.valueNode == ts[0].valueNode;
      assert ([fate] + rest.fates)[1..] == rest.fates;
      Success(PassResult([fate] + rest.fates, rest.nodeToProperty))
  }

  /** A completed loop is exactly its iterations run in order: every fate is
      what `Step` gives for its tuple under the map the earlier iterations left. */
  lemma {:induction false} PassFollowsSteps(env: Env, beanType: ClassName, bean: JValue,
                                            nodeToProperty: NodeToProperty, ts: seq<Tuple>)
    requires Pass(env, beanType, bean, nodeToProperty, ts).Success?
    ensures Threads(env, beanType, bean, nodeToProperty, ts, Pass(env, beanType, bean, nodeToProperty, ts).value.fates)
    decreases |ts|
  {
    if |ts| > 0 {
      var (fate, recorded) := Step(env, beanType, bean, nodeToProperty, ts[0]).value;
      assert forall i :: 1 <= i < |ts| ==> ts[i] == ts[1..][i - 1];
      PassFollowsSteps(env, beanType, bean, recorded, ts[1..]);
      ThreadsCons(env, beanType, bean, nodeToProperty, ts, fate, recorded,
                  Pass(env, beanType, bean, recorded, ts[1..]).value.fates);
    }
  }

  /** The loop ran the iterations `done` in order and then the next one threw `e`. */
  predicate AbortsAfter(env: Env, beanType: ClassName, bean: JValue, nodeToProperty: NodeToProperty,
                        ts: seq<Tuple>, done: seq<Fate>, e: Error)
  {
    && |done| < |ts|
    && Threads(env, beanType, bean, nodeToProperty, ts, done)
    && Step(env, beanType, bean, Recorded(nodeToProperty, done), ts[|done|]) == Failure(e)
  }

  /** An aborted loop ran its iterations in order until the first that threw,
      and its exception is that iteration's. */
  lemma {:induction false} PassStopsAtFirstFailure(env: Env, beanType: ClassName, bean: JValue,
                                                   nodeToProperty: NodeToProperty, ts: seq<Tuple>)
    requires Pass(env, beanType, bean, nodeToProperty, ts).Failure?
    ensures exists done :: AbortsAfter(env, beanType, bean, nodeToProperty, ts, done,
                                       Pass(env, beanType, bean, nodeToProperty, ts).error)
    decreases |ts|
  {
    var e := Pass(env, beanType, bean, nodeToProperty, ts).error;
    var first := Step(env, beanType, bean, nodeToProperty, ts[0]);
    if first.Failure? {
      assert AbortsAfter(env, beanType, bean, nodeToProperty, ts, [], e);
    } else {
      var (fate, recorded) := first.value;
      assert Pass(env, beanType, bean, recorded, ts[1..]).Failure?;
      PassStopsAtFirstFailure(env, beanType, bean, recorded, ts[1..]);
      var done :| AbortsAfter(env, beanType, bean, recorded, ts[1..], done, e);
      ThreadsCons(env, beanType, bean, nodeToProperty, ts, fate, recorded, done);
      assert ts[|done| + 1] == ts[1..][|done|];
      assert AbortsAfter(env, beanType, bean, nodeToProperty, ts, [fate] + done, e);
    }
  }

  /** The tuples the fates were decided for, in order. */
  function FateTuples(fates: seq<Fate>): (ts: seq<Tuple>)
    ensures |ts| == |fates| && forall i :: 0 <= i < |fates| ==> ts[i] == fates[i].tuple
  {
    seq(|fates|, i requires 0 <= i < |fates| => fates[i].tuple)
  }

  /** The identities of the value nodes the fates record. */
  function FateIds(fates: seq<Fate>): set<NodeId> {
    ValueIds(FateTuples(fates))
  }

  /** Recording adds exactly the fates' value nodes and keeps every other entry. */
  lemma {:induction false} RecordedKeys(nodeToProperty: NodeToProperty, fates: seq<Fate>)
    ensures Recorded(nodeToProperty, fates).Keys == nodeToProperty.Keys + FateIds(fates)
    ensures forall id :: id in nodeToProperty && id !in FateIds(fates) ==>
      Recorded(nodeToProperty, fates)[id] == nodeToProperty[id]
    decreases |fates|
  {
    if |fates| > 0 {
      var m := nodeToProperty[fates[0].tuple.valueNode.id := fates[0].property];
      RecordedKeys(m, fates[1..]);
      assert FateIds(fates) == {fates[0].tuple.valueNode.id} + FateIds(fates[1..]) by {
        assert forall i :: 1 <= i < |fates| ==> fates[i] == fates[1..][i - 1];
        assert forall i :: 0 <= i < |fates[1..]| ==> fates[1..][i] == fates[i + 1];
      }
    }
  }

  /** A value node recorded by no later fate keeps the property of its own fate. */
  lemma {:induction false} RecordedLast(nodeToProperty: NodeToProperty, fates: seq<Fate>, i: nat)
    requires i < |fates|
    requires forall j :: i < j < |fates| ==> fates[j].tuple.valueNode.id != fates[i].tuple.valueNode.id
    ensures fates[i].tuple.valueNode.id in Recorded(nodeToProperty, fates)
    ensures Recorded(nodeToProperty, fates)[fates[i].tuple.valueNode.id] == fates[i].property
    decreases |fates|
  {
    var m := nodeToProperty[fates[0].tuple.valueNode.id := fates[0].property];
    if i == 0 {
      RecordedKeys(m, fates[1..]);
      assert fates[0].tuple.valueNode.id !in FateIds(fates[1..]);
    } else {
      RecordedLast(m, fates[1..], i - 1);
    }
  }

  /** Every value node of the mapping is recorded, and nothing recorded earlier is forgotten. */
  lemma PassRecordsEveryValueNode(env: Env, beanType: ClassName, bean: JValue,
                                  nodeToProperty: NodeToProperty, ts: seq<Tuple>)
    requires Pass(env, beanType, bean, nodeToProperty, ts).Success?
    ensures Pass(env, beanType, bean, nodeToProperty, ts).value.nodeToProperty.Keys == nodeToProperty.Keys + ValueIds(ts)
    ensures forall id :: id in nodeToProperty && id !in ValueIds(ts) ==>
      Pass(env, beanType, bean, nodeToProperty, ts).value.nodeToProperty[id] == nodeToProperty[id]
  {
    var fates := Pass(env, beanType, bean, nodeToProperty, ts).value.fates;
    RecordedKeys(nodeToProperty, fates);
    assert FateIds(fates) == ValueIds(ts) by {
      assert forall i :: 0 <= i < |ts| ==> fates[i].tuple.valueNode == ts[i].valueNode;
    }
  }

  /** Each value node ends up recorded against the property of its last tuple
      (with distinct value nodes, simply its own tuple's property). */
  lemma PassRecordsResolvedProperty(env: Env, beanType: ClassName, bean: JValue,
                                    nodeToProperty: NodeToProperty, ts: seq<Tuple>, i: nat)
    requires Pass(env, beanType, bean, nodeToProperty, ts).Success?
    requires i < |ts| && LastOccurrence(ts, i)
    ensures ts[i].valueNode.id in Pass(env, beanType, bean, nodeToProperty, ts).value.nodeToProperty
    ensures Pass(env, beanType, bean, nodeToProperty, ts).value.nodeToProperty[ts[i].valueNode.id]
         == Pass(env, beanType, bean, nodeToProperty, ts).value.fates[i].property
  {
    var fates := Pass(env, beanType, bean, nodeToProperty, ts).value.fates;
    assert forall j :: 0 <= j < |ts| ==> fates[j].tuple.valueNode == ts[j].valueNode;
    RecordedLast(nodeToProperty, fates, i);
  }

  datatype SecondStepResult = SecondStepResult(value: JValue, node: Node, nodeToProperty: NodeToProperty)

  /** Which fates keep their tuple for the base engine. */
  function KeepMask(fates: seq<Fate>): (keep: seq<bool>)
    ensures |keep| == |fates|
    ensures forall i :: 0 <= i < |fates| ==> (keep[i] <==> !fates[i].removed)
  {
    seq(|fates|, i requires 0 <= i < |fates| => !fates[i].removed)
  }

  /** The tuples left for the base engine: those not removed, in their
      original order (`TrueIndices` enumerates the kept positions increasingly). */
  function Kept(fates: seq<Fate>): (kept: seq<Tuple>)
    ensures |kept| == |TrueIndices(KeepMask(fates), 0)|
    ensures forall k :: 0 <= k < |kept| ==> kept[k] == fates[TrueIndices(KeepMask(fates), 0)[k]].tuple
  {
    var tuples := seq(|fates|, i requires 0 <= i < |fates| => fates[i].tuple);
    Select(tuples, KeepMask(fates))
  }

  /** Nothing removed is passed on, and everything not removed is. */
  lemma KeptIsExactlyTheUnremoved(fates: seq<Fate>)
    ensures forall k :: 0 <= k < |Kept(fates)| ==>
      exists i :: 0 <= i < |fates| && !fates[i].removed && Kept(fates)[k] == fates[i].tuple
    ensures forall i :: 0 <= i < |fates| && !fates[i].removed ==> fates[i].tuple in Kept(fates)
  {
    var idx := TrueIndices(KeepMask(fates), 0);
    var kept := Kept(fates);
    forall i | 0 <= i < |fates| && !fates[i].removed
      ensures fates[i].tuple in kept
    {
      assert i in idx;
      var k :| 0 <= k < |idx| && idx[k] == i;
      assert kept[k] == fates[i].tuple;
    }
  }

  /** `constructJavaBean2ndStep(node, bean)`: the pass, then the base second
      step on the same node holding only the kept tuples. */
  function ConstructJavaBean2ndStep(env: Env, node: Node, bean: JValue, nodeToProperty: NodeToProperty)
    : (r: Result<SecondStepResult, Error>)
    requires node.Mapping?
    ensures r.Success? ==>
      && Pass(env, node.nodeType, bean, nodeToProperty, node.tuples).Success?
      && var pass := Pass(env, node.nodeType, bean, nodeToProperty, node.tuples).value;
         && r.value.node == node.(tuples := Kept(pass.fates))
         && r.value.nodeToProperty == pass.nodeToProperty
         && env.superSecondStep(r.value.node, bean) == Success(r.value.value)
    ensures Pass(env, node.nodeType, bean, nodeToProperty, node.tuples).Failure? ==>
      r == Failure(Pass(env, node.nodeType, bean, nodeToProperty, node.tuples).error)
    ensures Pass(env, node.nodeType, bean, nodeToProperty, node.tuples).Success? ==>
      var pass := Pass(env, node.nodeType, bean, nodeToProperty, node.tuples).value;
      var remaining := node.(tuples := Kept(pass.fates));
      && (env.superSecondStep(remaining, bean).Failure? ==> r == Failure(env.superSecondStep(remaining, bean).error))
      && (env.superSecondStep(remaining, bean).Success? ==>
            r == Success(SecondStepResult(env.superSecondStep(remaining, bean).value, remaining, pass.nodeToProperty)))
  {
    var pass :- Pass(env, node.nodeType, bean, nodeToProperty, node.tuples);
    var remaining := node.(tuples := Kept(pass.fates));
    var value :- env.superSecondStep(remaining, bean);
    Success(SecondStepResult(value, remaining, pass.nodeToProperty))
  }

  /** A property marked `ignoreExceptions` whose value cannot be built is
      withheld from the base step, and one whose value can be built is passed
      on: its fate is decided by the default construction alone, under the map
      the loop has built so far. */
  lemma IgnoredFailureIsDropped(env: Env, node: Node, bean: JValue, nodeToProperty: NodeToProperty, i: nat)
    requires node.Mapping?
    requires Pass(env, node.nodeType, bean, nodeToProperty, node.tuples).Success?
    requires i < |node.tuples|
    requires var f := Pass(env, node.nodeType, bean, nodeToProperty, node.tuples).value.fates[i];
      f.property.constructBy.None? && f.property.IgnoresExceptions()
    ensures var fates := Pass(env, node.nodeType, bean, nodeToProperty, node.tuples).value.fates;
      && (fates[i].removed <==> env.construct(Recorded(nodeToProperty, fates[..i + 1]), node.tuples[i].valueNode).Failure?)
      && (i in TrueIndices(KeepMask(fates), 0) <==>
            env.construct(Recorded(nodeToProperty, fates[..i + 1]), node.tuples[i].valueNode).Success?)
  {
    var fates := Pass(env, node.nodeType, bean, nodeToProperty, node.tuples).value.fates;
    PassFollowsSteps(env, node.nodeType, bean, nodeToProperty, node.tuples);
    assert Step(env, node.nodeType, bean, Recorded(nodeToProperty, fates[..i]), node.tuples[i])
        == Success((fates[i], Recorded(nodeToProperty, fates[..i + 1])));
  }

  /** Only keys, property resolution and property-level custom constructors can
      abort the loop: when every key resolves to a property without `ConstructBy`,
      the pass succeeds, however many `ignoreExceptions` values fail to build. */
  lemma PlainAndIgnoredPropertiesNeverAbort(env: Env, node: Node, bean: JValue, nodeToProperty: NodeToProperty)
    requires node.Mapping?
    requires forall i :: 0 <= i < |node.tuples| ==>
      && node.tuples[i].keyNode.Scalar?
      && ConstructKeyString(env, RetypeKey(node.tuples[i]).keyNode).Success?
      && env.resolveProperty(node.nodeType, ConstructKeyString(env, RetypeKey(node.tuples[i]).keyNode).value).Success?
      && env.resolveProperty(node.nodeType, ConstructKeyString(env, RetypeKey(node.tuples[i]).keyNode).value).value.constructBy.None?
    ensures Pass(env, node.nodeType, bean, nodeToProperty, node.tuples).Success?
  {
    if Pass(env, node.nodeType, bean, nodeToProperty, node.tuples).Failure? {
      PassStopsAtFirstFailure(env, node.nodeType, bean, nodeToProperty, node.tuples);
      assert false;
    }
  }

  /** A `YAMLException` thrown by a property's custom constructor escapes the
      second step unchanged. */
  lemma CustomYamlExceptionPropagates(env: Env, beanType: ClassName, bean: JValue, nodeToProperty: NodeToProperty,
                                      t: Tuple, p: Property, e: YamlKind)
    requires t.keyNode.Scalar? && ConstructKeyString(env, RetypeKey(t).keyNode).Success?
    requires env.resolveProperty(beanType, ConstructKeyString(env, RetypeKey(t).keyNode).value) == Success(p)
    requires p.constructBy.Some? && env.classFailure(p.constructBy.value.value).None?
    requires var m := nodeToProperty[t.valueNode.id := p];
      env.customConstruct(p.constructBy.value.value, t.valueNode, env.construct(m, t.valueNode)) == Failure(Yaml(e))
    ensures Step(env, beanType, bean, nodeToProperty, t) == Failure(Yaml(e))
  {
  }

  /** The base second step sees exactly the tuples that neither a property
      `ConstructBy` handled nor an ignored failure dropped, with their keys typed
      `String`, in the mapping's order. */
  lemma BaseStepSeesOnlyUnhandledTuples(env: Env, node: Node, bean: JValue, nodeToProperty: NodeToProperty)
    requires node.Mapping?
    requires ConstructJavaBean2ndStep(env, node, bean, nodeToProperty).Success?
    ensures var fates := Pass(env, node.nodeType, bean, nodeToProperty, node.tuples).value.fates;
      var idx := TrueIndices(KeepMask(fates), 0);
      var passed := ConstructJavaBean2ndStep(env, node, bean, nodeToProperty).value.node.tuples;
      && |passed| == |idx|
      && (forall k :: 0 <= k < |passed| ==>
            && idx[k] < |node.tuples|
            && passed[k] == RetypeKey(node.tuples[idx[k]])
            && fates[idx[k]].property.constructBy.None?
            && !fates[idx[k]].removed)
      && (forall k, l :: 0 <= k < l < |passed| ==> idx[k] < idx[l])
      && (forall i :: 0 <= i < |node.tuples| && !fates[i].removed ==> i in idx)
  {
    var fates := Pass(env, node.nodeType, bean, nodeToProperty, node.tuples).value.fates;
    var idx := TrueIndices(KeepMask(fates), 0);
    forall k | 0 <= k < |idx|
      ensures FateFits(env, node.nodeType, node.tuples[idx[k]], fates[idx[k]])
    {
    }
  }
}
