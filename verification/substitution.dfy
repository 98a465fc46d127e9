/** Automatic substitution-type detection: the compatibility probe over the
    candidates of a `@Type` and the choice of the node's new type. */
module Substitution {
  import opened Wrappers
  import opened Runtime
  import opened Seqs
  import opened Environment
  import opened Registries

  /** True when `key` names a bean property of the candidate or the alias key
      of one of its `@Property` annotations. */
  predicate Names(info: ClassInfo, key: string) {
    && info.beanPropertyNames.Some?
    && (|| key in info.beanPropertyNames.value
        || (&& info.properties.Some?
            && exists p :: p in info.properties.value && p.annotation.Some? && p.annotation.value.key == key))
  }

  /** The exceptions the probe's `catch (YAMLException | IntrospectionException e)` swallows. */
  predicate ProbeCatches(e: Error) {
    e.Yaml? || e.Introspection?
  }

  /** The probe's verdict on one key for one candidate: `false` disqualifies the
      candidate (a missing property, a `YAMLException` or an
      `IntrospectionException` while checking); any other exception escapes. */
  function KeyMatches(env: Env, candidate: ClassName, t: Tuple): (r: Result<bool, Error>)
    ensures r.Failure? ==> !ProbeCatches(r.error)
    ensures r == Success(true) <==>
      && t.keyNode.Scalar?
      && ConstructKeyString(env, t.keyNode).Success?
      && Names(env.reflect(candidate), ConstructKeyString(env, t.keyNode).value)
    ensures r.Failure? <==>
      && t.keyNode.Scalar?
      && ConstructKeyString(env, t.keyNode).Failure?
      && !ProbeCatches(ConstructKeyString(env, t.keyNode).error)
    ensures r.Failure? ==> r.error == ConstructKeyString(env, t.keyNode).error
  {
    match GetKeyNode(t)
    case Failure(_) => Success(false)
    case Success(keyNode) =>
      match ConstructKeyString(env, keyNode)
      case Failure(e) => if ProbeCatches(e) then Success(false) else Failure(e)
      case Success(key) => Success(Names(env.reflect(candidate), key))
  }

  /** Whether every key of the mapping passes for `candidate`; the scan stops
      at the first key that disqualifies it or throws, and that key's verdict,
      `false` or the escaping exception, is the candidate's. */
  function CandidateValid(env: Env, candidate: ClassName, tuples: seq<Tuple>): (r: Result<bool, Error>)
    ensures r == Success(true) <==> forall i :: 0 <= i < |tuples| ==> KeyMatches(env, candidate, tuples[i]) == Success(true)
    ensures r.Failure? ==>
      exists i :: 0 <= i < |tuples| && KeyMatches(env, candidate, tuples[i]) == Failure(r.error)
                  && forall j :: 0 <= j < i ==> KeyMatches(env, candidate, tuples[j]) == Success(true)
    ensures forall i :: 0 <= i < |tuples| && KeyMatches(env, candidate, tuples[i]) != Success(true) ==>
      (forall j :: 0 <= j < i ==> KeyMatches(env, candidate, tuples[j]) == Success(true)) ==>
      r == KeyMatches(env, candidate, tuples[i])
  {
    if |tuples| == 0 then Success(true)
    else
      var here :- KeyMatches(env, candidate, tuples[0]);
      if !here then Success(false)
      else
        var rest := CandidateValid(env, candidate, tuples[1..]);
        assert forall i :: 1 <= i < |tuples| ==> tuples[i] == tuples[1..][i - 1];
        rest
  }

  /** The probe's verdict on each candidate, in declaration order. */
  function Verdicts(env: Env, candidates: seq<ClassName>, tuples: seq<Tuple>): (v: seq<Result<bool, Error>>)
    ensures |v| == |candidates|
    ensures forall i :: 0 <= i < |candidates| ==> v[i] == CandidateValid(env, candidates[i], tuples)
  {
    seq(|candidates|, i requires 0 <= i < |candidates| => CandidateValid(env, candidates[i], tuples))
  }

  /** Which candidates pass the probe, position by position. */
  function ValidMask(env: Env, candidates: seq<ClassName>, tuples: seq<Tuple>): (keep: seq<bool>)
    ensures |keep| == |candidates|
    ensures forall i :: 0 <= i < |candidates| ==> (keep[i] <==> CandidateValid(env, candidates[i], tuples) == Success(true))
  {
    seq(|candidates|, i requires 0 <= i < |candidates| => CandidateValid(env, candidates[i], tuples) == Success(true))
  }

  /** The candidates that pass the probe, in declaration order. */
  function ValidIn(env: Env, candidates: seq<ClassName>, tuples: seq<Tuple>): (v: seq<ClassName>)
    ensures |v| == |TrueIndices(ValidMask(env, candidates, tuples), 0)|
    ensures forall k :: 0 <= k < |v| ==> v[k] == candidates[TrueIndices(ValidMask(env, candidates, tuples), 0)[k]]
  {
    Select(candidates, ValidMask(env, candidates, tuples))
  }

  /** What the order-preserving selection means for the candidates themselves:
      exactly the valid ones, none when none is valid, the first valid one first. */
  lemma ValidSelection(env: Env, candidates: seq<ClassName>, tuples: seq<Tuple>)
    ensures forall c :: c in ValidIn(env, candidates, tuples) <==> c in candidates && CandidateValid(env, c, tuples) == Success(true)
    ensures |ValidIn(env, candidates, tuples)| == 0 <==>
      forall i :: 0 <= i < |candidates| ==> CandidateValid(env, candidates[i], tuples) != Success(true)
    ensures |ValidIn(env, candidates, tuples)| > 0 ==>
      exists i :: 0 <= i < |candidates| && ValidIn(env, candidates, tuples)[0] == candidates[i]
                  && CandidateValid(env, candidates[i], tuples) == Success(true)
                  && forall j :: 0 <= j < i ==> CandidateValid(env, candidates[j], tuples) != Success(true)
  {
    var mask := ValidMask(env, candidates, tuples);
    SelectMembers(candidates, mask);
  }

  /** The exception that aborts the probe loop is that of the first candidate whose probe throws. */
  lemma FirstThrowingCandidate(env: Env, candidates: seq<ClassName>, tuples: seq<Tuple>)
    ensures Collect(Verdicts(env, candidates, tuples)).Failure? ==>
      exists i :: 0 <= i < |candidates| && CandidateValid(env, candidates[i], tuples) == Failure(Collect(Verdicts(env, candidates, tuples)).error)
                  && forall j :: 0 <= j < i ==> CandidateValid(env, candidates[j], tuples).Success?
  {
    if Collect(Verdicts(env, candidates, tuples)).Success? { return; }
    var e := Collect(Verdicts(env, candidates, tuples)).error;
    var verdicts := Verdicts(env, candidates, tuples);
    var i := CollectFailureIndex(verdicts);
    assert CandidateValid(env, candidates[i], tuples) == Failure(e);
    forall j | 0 <= j < i
      ensures CandidateValid(env, candidates[j], tuples).Success?
    {
      assert verdicts[j].Success?;
    }
  }

  /** `getValidSubstitutionTypes`: the candidates that pass the probe, in
      declaration order; the first candidate whose probe throws aborts it. */
  function ValidSubstitutionTypes(env: Env, candidates: seq<ClassName>, tuples: seq<Tuple>): (r: Result<seq<ClassName>, Error>)
    ensures r.Success? <==> forall i :: 0 <= i < |candidates| ==> CandidateValid(env, candidates[i], tuples).Success?
    ensures r.Success? ==>
      && |r.value| == |TrueIndices(ValidMask(env, candidates, tuples), 0)|
      && forall k :: 0 <= k < |r.value| ==> r.value[k] == candidates[TrueIndices(ValidMask(env, candidates, tuples), 0)[k]]
    ensures r.Success? ==> forall c :: c in r.value <==> c in candidates && CandidateValid(env, c, tuples) == Success(true)
    ensures r.Success? ==>
      (|r.value| == 0 <==> forall i :: 0 <= i < |candidates| ==> CandidateValid(env, candidates[i], tuples) != Success(true))
    ensures r.Success? && |r.value| > 0 ==>
      exists i :: 0 <= i < |candidates| && r.value[0] == candidates[i] && CandidateValid(env, candidates[i], tuples) == Success(true)
                  && forall j :: 0 <= j < i ==> CandidateValid(env, candidates[j], tuples) != Success(true)
    ensures r.Failure? ==>
      exists i :: 0 <= i < |candidates| && CandidateValid(env, candidates[i], tuples) == Failure(r.error)
                  && forall j :: 0 <= j < i ==> CandidateValid(env, candidates[j], tuples).Success?
  {
    match Collect(Verdicts(env, candidates, tuples))
    case Failure(e) => FirstThrowingCandidate(env, candidates, tuples); Failure(e)
    case Success(_) => ValidSelection(env, candidates, tuples); Success(ValidIn(env, candidates, tuples))
  }

  /** The type the mapping node is given before instantiation (lines 91-133):
      unchanged unless the declared type has a `Type` with candidates; then the
      custom selector decides, or else the first valid candidate, or else nothing changes. */
  function SelectType(env: Env, reg: Registry, node: Node): (r: Result<ClassName, Error>)
    ensures !node.Mapping? ==> r == Success(node.nodeType)
    ensures node.Mapping? && (GetTypeForClass(env, reg, node.nodeType).None?
                              || |GetTypeForClass(env, reg, node.nodeType).value.substitutionTypes| == 0)
            ==> r == Success(node.nodeType)
    ensures node.Mapping? && GetTypeForClass(env, reg, node.nodeType).Some? ==>
      var t := GetTypeForClass(env, reg, node.nodeType).value;
      var sel := t.substitutionTypeSelector;
      && (|t.substitutionTypes| > 0 && sel != NoSubstitutionTypeSelectorClass && env.classFailure(sel).Some? ==>
            r == Failure(if IsCreationFailure(env.classFailure(sel).value)
                         then Yaml(SelectorNotInstantiable(sel, env.classFailure(sel).value))
                         else env.classFailure(sel).value))
      && (|t.substitutionTypes| > 0 && sel != NoSubstitutionTypeSelectorClass && env.classFailure(sel).None?
          && env.selectorOf(sel).disableDefaultAlgorithm ==>
            r == Success(env.selectorOf(sel).getSelectedType(node, [])))
      && (|t.substitutionTypes| > 0 && sel != NoSubstitutionTypeSelectorClass && env.classFailure(sel).None?
          && !env.selectorOf(sel).disableDefaultAlgorithm
          && ValidSubstitutionTypes(env, t.substitutionTypes, node.tuples).Success? ==>
            r == Success(env.selectorOf(sel).getSelectedType(node, ValidSubstitutionTypes(env, t.substitutionTypes, node.tuples).value)))
      && (|t.substitutionTypes| > 0 && sel == NoSubstitutionTypeSelectorClass
          && ValidSubstitutionTypes(env, t.substitutionTypes, node.tuples).Success? ==>
            var valid := ValidSubstitutionTypes(env, t.substitutionTypes, node.tuples).value;
            r == Success(if |valid| == 0 then node.nodeType else valid[0]))
      && (|t.substitutionTypes| > 0
          && (sel == NoSubstitutionTypeSelectorClass
              || (env.classFailure(sel).None? && !env.selectorOf(sel).disableDefaultAlgorithm))
          && ValidSubstitutionTypes(env, t.substitutionTypes, node.tuples).Failure? ==>
            r == Failure(ValidSubstitutionTypes(env, t.substitutionTypes, node.tuples).error))
  {
    if !node.Mapping? then Success(node.nodeType)
    else
      match GetTypeForClass(env, reg, node.nodeType)
      case None => Success(node.nodeType)
      case Some(t) =>
        if |t.substitutionTypes| == 0 then Success(node.nodeType)
        else if t.substitutionTypeSelector != NoSubstitutionTypeSelectorClass then
          var sel := t.substitutionTypeSelector;
          match env.classFailure(sel)
          case Some(e) =>
            Failure(if IsCreationFailure(e) then Yaml(SelectorNotInstantiable(sel, e)) else e)
          case None =>
            var selector := env.selectorOf(sel);
            var valid :- if selector.disableDefaultAlgorithm then Success([])
                         else ValidSubstitutionTypes(env, t.substitutionTypes, node.tuples);
            Success(selector.getSelectedType(node, valid))
        else
          var valid :- ValidSubstitutionTypes(env, t.substitutionTypes, node.tuples);
          if |valid| == 0 then Success(node.nodeType) else Success(valid[0])
  }

  /** Without a selector, the node gets the first candidate in declaration order
      that passes the probe, and keeps its type when none passes. */
  lemma FirstValidCandidateWins(env: Env, reg: Registry, node: Node)
    requires node.Mapping?
    requires GetTypeForClass(env, reg, node.nodeType).Some?
    requires GetTypeForClass(env, reg, node.nodeType).value.substitutionTypeSelector == NoSubstitutionTypeSelectorClass
    ensures SelectType(env, reg, node).Success? ==>
      var cands := GetTypeForClass(env, reg, node.nodeType).value.substitutionTypes;
      || (NoCandidatePasses(env, cands, node) && SelectType(env, reg, node) == Success(node.nodeType))
      || exists i :: 0 <= i < |cands| && SelectType(env, reg, node) == Success(cands[i])
                     && CandidateValid(env, cands[i], node.tuples) == Success(true)
                     && forall j :: 0 <= j < i ==> CandidateValid(env, cands[j], node.tuples) != Success(true)
  {
  }

  /** No candidate passes the probe (vacuously so when there are none). */
  predicate NoCandidatePasses(env: Env, cands: seq<ClassName>, node: Node)
    requires node.Mapping?
  {
    forall i :: 0 <= i < |cands| ==> CandidateValid(env, cands[i], node.tuples) != Success(true)
  }
}
