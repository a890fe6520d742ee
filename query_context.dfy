/**
 * `TfsQueryContext`: a query text and a dictionary of named parameters that the client
 * substitutes into the text itself before handing it to the work item store.
 */
module TfsQuery {
  import opened Wrappers
  import opened QuerySubstitution

  /** Some registered parameter has this name. */
  predicate HasName(ps: Parameters, name: string)
  {
    exists i | 0 <= i < |ps| :: ps[i].name == name
  }

  /** No name is registered twice: the invariant a `Dictionary<string, string>` keeps. */
  predicate DistinctNames(ps: Parameters)
  {
    forall i, j | 0 <= i < j < |ps| :: ps[i].name != ps[j].name
  }

  /** The dictionary seen as a map from name to value. */
  function AsMap(ps: Parameters): map<string, string>
    decreases |ps|
  {
    if ps == [] then map[] else AsMap(ps[..|ps| - 1])[ps[|ps| - 1].name := ps[|ps| - 1].value]
  }

  /**
   * `Dictionary.Add`: refused (the source throws) when the name is already present,
   * otherwise the new entry is enumerated after the existing ones.
   */
  function Add(ps: Parameters, name: string, value: string): (r: Option<Parameters>)
    ensures r.None? <==> HasName(ps, name)
    ensures r.Some? ==> r.value == ps + [Parameter(name, value)]
    ensures r.Some? && DistinctNames(ps) ==> DistinctNames(r.value)
  {
    if HasName(ps, name) then None else Some(ps + [Parameter(name, value)])
  }

  /** The map view has a key exactly for each registered name (distinct or not). */
  lemma {:induction false} AsMapKeys(ps: Parameters, name: string)
    ensures name in AsMap(ps) <==> HasName(ps, name)
    decreases |ps|
  {
    if ps != [] {
      var init := ps[..|ps| - 1];
      AsMapKeys(init, name);
      if HasName(init, name) {
        var i :| 0 <= i < |init| && init[i].name == name;
        assert ps[i] == init[i];
      }
      if HasName(ps, name) && ps[|ps| - 1].name != name {
        var i :| 0 <= i < |ps| && ps[i].name == name;
        assert init[i] == ps[i];
      }
    }
  }

  /**
   * With distinct names the map view holds exactly the registered pairs: one key per
   * parameter, and each name looks up its own value.
   */
  lemma {:induction false} AsMapOfDistinct(ps: Parameters)
    requires DistinctNames(ps)
    ensures |AsMap(ps)| == |ps|
    ensures forall i | 0 <= i < |ps| :: ps[i].name in AsMap(ps) && AsMap(ps)[ps[i].name] == ps[i].value
    decreases |ps|
  {
    if ps != [] {
      var init, last := ps[..|ps| - 1], ps[|ps| - 1];
      AsMapOfDistinct(init);
      AsMapKeys(init, last.name);
      forall i | 0 <= i < |ps|
        ensures ps[i].name in AsMap(ps) && AsMap(ps)[ps[i].name] == ps[i].value
      {
        if i < |ps| - 1 {
          assert ps[i] == init[i];
        }
      }
    }
  }

  /** A successful Add extends the map view by the one new entry. */
  lemma AddExtendsMap(ps: Parameters, name: string, value: string)
    requires Add(ps, name, value).Some?
    ensures AsMap(Add(ps, name, value).value) == AsMap(ps)[name := value]
  {
    var r := Add(ps, name, value).value;
    assert r[..|r| - 1] == ps;
  }

  /** The key under which `Execute` records the collection's address after a query. */
  const CollectionUrlKey := "CollectionUrl"

  /** The key under which `Execute` records the query text it sent. */
  const QueryKey := "Query"

  /** What `Execute` leaves behind: the new `Query`, the parameters, and whether it returned normally. */
  datatype ExecuteOutcome = ExecuteOutcome(query: string, parameters: Parameters, completed: bool)

  /**
   * `Execute`: the query is substituted and stored in `Query` before the store is asked;
   * when the store answers, the collection address and then the query text are added to
   * the same dictionary, and either Add throws when its key is already present.
   * `storeAnswers` stands for the store's query succeeding.
   */
  function ExecuteEffect(query: string, ps: Parameters, collectionUrl: string, storeAnswers: bool): (o: ExecuteOutcome)
    ensures o.query == Substitute(query, ps)
    ensures o.completed <==> storeAnswers && !HasName(ps, CollectionUrlKey) && !HasName(ps, QueryKey)
    ensures o.completed ==> o.parameters == ps + [Parameter(CollectionUrlKey, collectionUrl), Parameter(QueryKey, o.query)]
    ensures !storeAnswers ==> o.parameters == ps
    ensures storeAnswers && HasName(ps, CollectionUrlKey) ==> o.parameters == ps
    ensures storeAnswers && !HasName(ps, CollectionUrlKey) && HasName(ps, QueryKey)
      ==> o.parameters == ps + [Parameter(CollectionUrlKey, collectionUrl)]
    ensures DistinctNames(ps) ==> DistinctNames(o.parameters)
  {
    var sent := Substitute(query, ps);
    if !storeAnswers then
      ExecuteOutcome(sent, ps, false)
    else
      match Add(ps, CollectionUrlKey, collectionUrl)
      case None => ExecuteOutcome(sent, ps, false)
      case Some(withUrl) =>
        assert HasName(withUrl, QueryKey) <==> HasName(ps, QueryKey) by {
          assert withUrl[|ps|].name != QueryKey;
          assert forall i | 0 <= i < |ps| :: withUrl[i] == ps[i];
        }
        match Add(withUrl, QueryKey, sent)
        case None => ExecuteOutcome(sent, withUrl, false)
        case Some(withQuery) => ExecuteOutcome(sent, withQuery, true)
  }

  /**
   * A context can run `Execute` to completion only once. The first completed run leaves
   * "CollectionUrl" in the dictionary, and the dictionary only ever grows afterwards
   * (`AddParameter` and `Execute` append or leave it as it is), so every later run, on
   * whatever query text, substitutes and then throws at the Add.
   */
  lemma ExecuteOnlyOnce(query: string, ps: Parameters, url: string,
                        laterQuery: string, later: Parameters, laterUrl: string, storeAnswers: bool)
    requires ExecuteEffect(query, ps, url, true).completed
    requires ExecuteEffect(query, ps, url, true).parameters <= later
    ensures var again := ExecuteEffect(laterQuery, later, laterUrl, storeAnswers);
      && !again.completed
      && again.query == Substitute(laterQuery, later)
  {
    var first := ExecuteEffect(query, ps, url, true);
    assert later[|ps|] == first.parameters[|ps|];
    assert later[|ps|].name == CollectionUrlKey;
  }

  /**
   * A parameter registered under one of the reserved names makes every `Execute` that
   * reaches the store throw.
   */
  lemma ReservedNameBreaksExecute(query: string, ps: Parameters, value: string, url: string)
    requires Add(ps, QueryKey, value).Some?
    ensures !ExecuteEffect(query, Add(ps, QueryKey, value).value, url, true).completed
  {
    var r := Add(ps, QueryKey, value).value;
    assert r[|ps|].name == QueryKey;
  }

  /** The context object: the query text, settable by the caller, and the parameter dictionary. */
  class TfsQueryContext {
    var Query: string
    var parameters: Parameters

    ghost predicate Valid()
      reads this
    {
      DistinctNames(parameters)
    }

    /** A new context has an empty dictionary. */
    constructor()
      ensures Valid() && Query == "" && parameters == []
    {
      Query := "";
      parameters := [];
    }

    /**
     * `AddParameter`: registers a name and its value; `added` is false where the source
     * throws because the name is already registered, and then nothing changes.
     */
    method AddParameter(name: string, value: string) returns (added: bool)
      requires Valid()
      modifies this`parameters
      ensures Valid()
      ensures added <==> !HasName(old(parameters), name)
      ensures added ==> parameters == old(parameters) + [Parameter(name, value)]
      ensures !added ==> parameters == old(parameters)
    {
      var r := Add(parameters, name, value);
      if r.Some? {
        parameters := r.value;
      }
      added := r.Some?;
    }

    /**
     * `Execute`: substitutes the parameters into `Query`, keeps the result in `Query`,
     * and, once the store has answered, records the collection address and the query
     * text in the dictionary. `completed` is false where the source throws.
     */
    method Execute(collectionUrl: string, storeAnswers: bool) returns (completed: bool)
      requires Valid()
      modifies this
      ensures Valid()
      ensures var o := ExecuteEffect(old(Query), old(parameters), collectionUrl, storeAnswers);
        Query == o.query && parameters == o.parameters && completed == o.completed
    {
      Query := WorkAroundForSoapError(Query, parameters);
      if !storeAnswers {
        return false;
      }
      var withUrl := Add(parameters, CollectionUrlKey, collectionUrl);
      if withUrl.None? {
        return false;
      }
      parameters := withUrl.value;
      var withQuery := Add(parameters, QueryKey, Query);
      if withQuery.None? {
        return false;
      }
      parameters := withQuery.value;
      completed := true;
    }

    /**
     * `ExecuteLinksQuery`: substitutes the parameters into `Query` and keeps the result
     * there; the dictionary is left as it is.
     */
    method ExecuteLinksQuery() returns (sent: string)
      requires Valid()
      modifies this`Query
      ensures Valid()
      ensures Query == Substitute(old(Query), parameters) && sent == Query
    {
      Query := WorkAroundForSoapError(Query, parameters);
      sent := Query;
    }
  }
}
