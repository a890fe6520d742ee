/**
 * Client-side parameter substitution of `TfsQueryContext.WorkAroundForSOAPError`: for each
 * registered parameter, in the dictionary's enumeration order, every `@name` in the query
 * text is replaced by the value, bare when it parses as an Int32 and in single quotes
 * otherwise.
 */
module QuerySubstitution {
  import opened StringReplace
  import opened Int32Parse

  /** One registered query parameter. */
  datatype Parameter = Parameter(name: string, value: string)

  /** The parameter dictionary, in enumeration order. */
  type Parameters = seq<Parameter>

  /** `string.Format("@{0}", name)`: the text that stands for the parameter in a query. */
  function Placeholder(name: string): (p: string)
    ensures |p| == |name| + 1 && p[0] == '@' && p[1..] == name
  {
    "@" + name
  }

  /**
   * `string.Format(pattern, value)` with pattern "{0}" for Int32 values and "'{0}'"
   * otherwise: integers are never quoted, everything else is wrapped in exactly one pair
   * of single quotes.
   */
  function Rendered(value: string): (r: string)
    ensures r == value <==> IsInteger(value)
    ensures !IsInteger(value) ==> |r| == |value| + 2 && r[0] == '\'' && r[|r| - 1] == '\'' && r[1..|r| - 1] == value
  {
    if IsInteger(value) then value else "'" + value + "'"
  }

  /** One iteration of the loop: `query.Replace("@" + name, rendered value)`. */
  function SubstituteOne(query: string, p: Parameter): string
  {
    Replace(query, Placeholder(p.name), Rendered(p.value))
  }

  /**
   * One pass changes the length by the number of matches times the difference between
   * the rendering (the value, or the value and two quotes) and the placeholder, and a
   * query without the placeholder comes back unchanged.
   */
  lemma SubstituteOneEffect(query: string, p: Parameter)
    ensures |SubstituteOne(query, p)|
         == |query| + Count(query, Placeholder(p.name)) * (|Rendered(p.value)| - |p.name| - 1)
    ensures |Rendered(p.value)| == if IsInteger(p.value) then |p.value| else |p.value| + 2
    ensures !Occurs(query, Placeholder(p.name)) ==> SubstituteOne(query, p) == query
  {
    ReplaceLength(query, Placeholder(p.name), Rendered(p.value));
    ReplaceAbsentIsIdentity(query, Placeholder(p.name), Rendered(p.value));
  }

  /** The whole substitution: a left fold of SubstituteOne over the parameters, first to last. */
  function Substitute(query: string, ps: Parameters): string
    decreases |ps|
  {
    if ps == [] then query else Substitute(SubstituteOne(query, ps[0]), ps[1..])
  }

  /**
   * When no parameter's placeholder occurs in the query (in particular when there are no
   * parameters), the query is returned as it is.
   */
  lemma {:induction false} SubstituteWithoutPlaceholders(query: string, ps: Parameters)
    requires forall i :: 0 <= i < |ps| ==> !Occurs(query, Placeholder(ps[i].name))
    ensures Substitute(query, ps) == query
    decreases |ps|
  {
    if ps != [] {
      SubstituteOneEffect(query, ps[0]);
      SubstituteWithoutPlaceholders(query, ps[1..]);
    }
  }

  /** With one parameter the substitution is one Replace pass. */
  lemma SubstituteSingle(query: string, p: Parameter)
    ensures Substitute(query, [p]) == Replace(query, Placeholder(p.name), Rendered(p.value))
  {
  }

  /** The fold splits over concatenated parameter lists: later parameters see earlier output. */
  lemma {:induction false} SubstituteAppend(query: string, ps: Parameters, qs: Parameters)
    ensures Substitute(query, ps + qs) == Substitute(Substitute(query, ps), qs)
    decreases |ps|
  {
    if ps == [] {
      assert ps + qs == qs;
    } else {
      assert (ps + qs)[1..] == ps[1..] + qs;
      SubstituteAppend(SubstituteOne(query, ps[0]), ps[1..], qs);
    }
  }

  /** Adding one parameter at the end adds one more Replace pass at the end. */
  lemma SubstituteSnoc(query: string, ps: Parameters, p: Parameter)
    ensures Substitute(query, ps + [p]) == SubstituteOne(Substitute(query, ps), p)
  {
    SubstituteAppend(query, ps, [p]);
  }

  /**
   * A query without any '@' has no placeholder, so it comes back unchanged whatever the
   * parameters are.
   */
  lemma SubstituteWithoutAtSign(query: string, ps: Parameters)
    requires '@' !in query
    ensures Substitute(query, ps) == query
  {
    forall i | 0 <= i < |ps| ensures !Occurs(query, Placeholder(ps[i].name)) {
      assert Placeholder(ps[i].name)[0] == '@';
    }
    SubstituteWithoutPlaceholders(query, ps);
  }

  /** `WorkAroundForSOAPError`: the `foreach` over the keys, reassigning `query` each time. */
  method WorkAroundForSoapError(query: string, parameters: Parameters) returns (result: string)
    ensures result == Substitute(query, parameters)
  {
    result := query;
    for i := 0 to |parameters|
      invariant result == Substitute(query, parameters[..i])
    {
      var key, value := parameters[i].name, parameters[i].value;
      SubstituteSnoc(query, parameters[..i], parameters[i]);
      assert parameters[..i + 1] == parameters[..i] + [parameters[i]];
      result := Replace(result, Placeholder(key), Rendered(value));
    }
    assert parameters[..|parameters|] == parameters;
  }
}
