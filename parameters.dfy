/**
  * Positional parameter binding: the query's parameter strings become (name, value) pairs
  * named "1", "2", ..., which the query text refers to as @1, @2, ....
  */
module Parameters {
  import opened Wrappers
  import opened TextUtil

  datatype SqlParameter = SqlParameter(name: string, value: string)

  /** The Select((p, index) => ((index + 1).ToString(), p)) projection; no list gives none. */
  function BindParameters(parameters: Option<seq<string>>): (r: seq<SqlParameter>)
    ensures parameters.None? ==> r == []
    ensures parameters.Some? ==> |r| == |parameters.value|
    ensures parameters.Some? ==> forall i :: 0 <= i < |r| ==> r[i].value == parameters.value[i]
  {
    match parameters
    case None => []
    case Some(ps) => seq(|ps|, i requires 0 <= i < |ps| => SqlParameter(NatToString(i + 1), ps[i]))
  }

  /** The value a named placeholder receives: the first parameter of that name. */
  function Lookup(bound: seq<SqlParameter>, name: string): Option<string>
  {
    if bound == [] then None
    else if bound[0].name == name then Some(bound[0].value)
    else Lookup(bound[1..], name)
  }

  lemma {:induction false} LookupFirst(bound: seq<SqlParameter>, name: string, j: int)
    requires 0 <= j < |bound| && bound[j].name == name
    requires forall i :: 0 <= i < j ==> bound[i].name != name
    ensures Lookup(bound, name) == Some(bound[j].value)
  {
    if j > 0 {
      LookupFirst(bound[1..], name, j - 1);
    }
  }

  lemma {:induction false} LookupMissing(bound: seq<SqlParameter>, name: string)
    requires forall i :: 0 <= i < |bound| ==> bound[i].name != name
    ensures Lookup(bound, name).None?
  {
    if bound != [] {
      LookupMissing(bound[1..], name);
    }
  }

  /** Each bound name reads back as the parameter's 1-based position. */
  lemma BoundNamesReadBack(parameters: seq<string>)
    ensures var r := BindParameters(Some(parameters));
      forall i :: 0 <= i < |r| ==> IsDigits(r[i].name) && ReadDigits(r[i].name) == i + 1
  {
    var r := BindParameters(Some(parameters));
    forall i | 0 <= i < |r|
      ensures IsDigits(r[i].name) && ReadDigits(r[i].name) == i + 1
    {
      ReadNatToString(i + 1);
    }
  }

  /** Placeholder @k receives the k-th parameter, and no placeholder outside 1..n receives any. */
  lemma PlaceholderReceivesParameter(parameters: seq<string>, k: nat)
    ensures 1 <= k <= |parameters| ==>
      Lookup(BindParameters(Some(parameters)), NatToString(k)) == Some(parameters[k - 1])
    ensures (k == 0 || k > |parameters|) ==>
      Lookup(BindParameters(Some(parameters)), NatToString(k)).None?
  {
    var r := BindParameters(Some(parameters));
    forall i | 0 <= i < |r|
      ensures r[i].name == NatToString(k) <==> i + 1 == k
    {
      NatToStringInjective(i + 1, k);
    }
    if 1 <= k <= |parameters| {
      LookupFirst(r, NatToString(k), k - 1);
    } else {
      LookupMissing(r, NatToString(k));
    }
  }
}
