/** The header resolver of the importer (`getValue` in pages/ImportData.tsx):
    given a row read from a file and a list of candidate header spellings,
    find the row's value for that column in three stages of decreasing
    strictness.  The stages are stated for any normaliser `norm`; the page
    uses `NormalizeText`. */
module Resolver {
  import opened Wrappers
  import opened JsText
  import opened JsValue
  import opened Normalize
  import opened Seqs

  // ---------------------------------------------------------------------
  // Stage 1: exact spelling.
  // ---------------------------------------------------------------------

  /** A candidate that is spelled exactly as a key of the row whose value is
      neither `undefined` nor `null`. */
  predicate ExactHit(row: Fields, key: string) {
    !IsNullish(Get(row, key))
  }

  /** The first candidate, in the caller's order, that is an exact hit. */
  function ExactMatch(row: Fields, candidates: seq<string>): (r: Option<Value>)
    ensures r.None? <==> forall i :: 0 <= i < |candidates| ==> !ExactHit(row, candidates[i])
    ensures r.Some? ==> exists i :: 0 <= i < |candidates| && ExactHit(row, candidates[i])
                                    && r.value == Get(row, candidates[i])
                                    && forall j :: 0 <= j < i ==> !ExactHit(row, candidates[j])
  {
    match FindFirst(candidates, c => ExactHit(row, c))
    case None => None
    case Some(i) => Some(Get(row, candidates[i]))
  }

  // ---------------------------------------------------------------------
  // Stage 2: same normal form.
  // ---------------------------------------------------------------------

  /** The dictionary built by folding over the row's keys: each key's normal
      form points to the key; a later key with the same normal form
      overwrites an earlier one. */
  function NormIndex(keys: seq<string>, norm: string -> string): (m: map<string, string>)
    ensures forall n :: n in m ==> m[n] in keys && norm(m[n]) == n
    decreases |keys|
  {
    if keys == [] then map[]
    else NormIndex(keys[..|keys| - 1], norm)[norm(keys[|keys| - 1]) := keys[|keys| - 1]]
  }

  /** The dictionary holds exactly the normal forms of the keys. */
  lemma {:induction false} NormIndexDomain(keys: seq<string>, norm: string -> string, n: string)
    ensures n in NormIndex(keys, norm) <==> exists i :: 0 <= i < |keys| && norm(keys[i]) == n
    decreases |keys|
  {
    if keys != [] {
      var init := keys[..|keys| - 1];
      NormIndexDomain(init, norm, n);
      if exists i :: 0 <= i < |init| && norm(init[i]) == n {
        var i :| 0 <= i < |init| && norm(init[i]) == n;
        assert keys[i] == init[i];
      }
      if exists i :: 0 <= i < |keys| && norm(keys[i]) == n {
        var i :| 0 <= i < |keys| && norm(keys[i]) == n;
        if i < |init| {
          assert init[i] == keys[i];
        }
      }
    }
  }

  /** Of several keys with the same normal form, the last one wins. */
  lemma {:induction false} NormIndexLast(keys: seq<string>, norm: string -> string, i: nat)
    requires i < |keys|
    requires forall j :: i < j < |keys| ==> norm(keys[j]) != norm(keys[i])
    ensures norm(keys[i]) in NormIndex(keys, norm) && NormIndex(keys, norm)[norm(keys[i])] == keys[i]
    decreases |keys|
  {
    if i < |keys| - 1 {
      var init := keys[..|keys| - 1];
      assert init[i] == keys[i];
      assert forall j :: i < j < |init| ==> init[j] == keys[j];
      NormIndexLast(init, norm, i);
    }
  }

  /** A candidate whose normal form is in the dictionary, pointing to a
      non-empty key whose value is neither `undefined` nor `null`. */
  predicate FuzzyHit(row: Fields, index: map<string, string>, norm: string -> string, key: string) {
    norm(key) in index && index[norm(key)] != "" && !IsNullish(Get(row, index[norm(key)]))
  }

  /** The first candidate that is a fuzzy hit, read through the dictionary. */
  function FuzzyMatch(row: Fields, index: map<string, string>, norm: string -> string,
                      candidates: seq<string>): (r: Option<Value>)
    ensures r.None? <==> forall i :: 0 <= i < |candidates| ==> !FuzzyHit(row, index, norm, candidates[i])
    ensures r.Some? ==> exists i :: 0 <= i < |candidates| && FuzzyHit(row, index, norm, candidates[i])
                                    && r.value == Get(row, index[norm(candidates[i])])
                                    && forall j :: 0 <= j < i ==> !FuzzyHit(row, index, norm, candidates[j])
  {
    match FindFirst(candidates, c => FuzzyHit(row, index, norm, c))
    case None => None
    case Some(i) => Some(Get(row, index[norm(candidates[i])]))
  }

  // ---------------------------------------------------------------------
  // Stage 3: a key whose normal form contains the candidate's.
  // ---------------------------------------------------------------------

  /** A row key whose normal form contains `target`. */
  predicate KeyContains(norm: string -> string, key: string, target: string) {
    Includes(norm(key), target)
  }

  /** The first key of the row whose normal form contains `target`. */
  function FoundKey(row: Fields, norm: string -> string, target: string): (r: Option<string>)
    ensures r.Some? ==> KeyContains(norm, r.value, target)
  {
    if row == [] then None
    else if KeyContains(norm, row[0].0, target) then Some(row[0].0)
    else FoundKey(row[1..], norm, target)
  }

  /** `FoundKey` is the first key in the row's order whose normal form
      contains the target, and is absent exactly when no key's does. */
  lemma {:induction false} FoundKeyFirst(row: Fields, norm: string -> string, target: string)
    ensures FoundKey(row, norm, target).None? <==> forall i :: 0 <= i < |row| ==> !KeyContains(norm, row[i].0, target)
    ensures FoundKey(row, norm, target).Some? ==>
              exists i :: 0 <= i < |row| && row[i].0 == FoundKey(row, norm, target).value
                          && forall j :: 0 <= j < i ==> !KeyContains(norm, row[j].0, target)
  {
    if row != [] && !KeyContains(norm, row[0].0, target) {
      FoundKeyFirst(row[1..], norm, target);
      var f := FoundKey(row[1..], norm, target);
      if f.Some? {
        var i :| 0 <= i < |row[1..]| && row[1..][i].0 == f.value
                 && forall j :: 0 <= j < i ==> !KeyContains(norm, row[1..][j].0, target);
        assert row[i + 1].0 == f.value;
      }
    }
  }

  /** A candidate whose normal form has at least three characters and whose
      first containing key is non-empty and present in the row.  A `null`
      value is accepted here, unlike in the first two stages. */
  predicate ContainsHit(row: Fields, norm: string -> string, key: string) {
    |norm(key)| >= 3 && var f := FoundKey(row, norm, norm(key));
    f.Some? && f.value != "" && Get(row, f.value) != Missing
  }

  /** The first candidate that is a containment hit. */
  function ContainsMatch(row: Fields, norm: string -> string, candidates: seq<string>): (r: Option<Value>)
    ensures r.None? <==> forall i :: 0 <= i < |candidates| ==> !ContainsHit(row, norm, candidates[i])
    ensures r.Some? ==> exists i :: 0 <= i < |candidates| && ContainsHit(row, norm, candidates[i])
                                    && r.value == Get(row, FoundKey(row, norm, norm(candidates[i])).value)
                                    && forall j :: 0 <= j < i ==> !ContainsHit(row, norm, candidates[j])
  {
    match FindFirst(candidates, c => ContainsHit(row, norm, c))
    case None => None
    case Some(i) => Some(Get(row, FoundKey(row, norm, norm(candidates[i])).value))
  }

  /** The third stage's result when candidate `i` is its first hit. */
  lemma ContainsMatchAt(row: Fields, norm: string -> string, candidates: seq<string>, i: nat)
    requires i < |candidates| && ContainsHit(row, norm, candidates[i])
    requires forall j :: 0 <= j < i ==> !ContainsHit(row, norm, candidates[j])
    ensures ContainsMatch(row, norm, candidates) == Some(Get(row, FoundKey(row, norm, norm(candidates[i])).value))
  {
    FindFirstAt(candidates, c => ContainsHit(row, norm, c), i);
  }

  // ---------------------------------------------------------------------
  // The three stages together.
  // ---------------------------------------------------------------------

  /** The value the resolver returns: the first stage that hits decides, and
      `undefined` when none does.  The result is always one of the row's own
      values or `undefined`, and `null` only comes from the third stage. */
  function ResolveValue(row: Fields, candidates: seq<string>, norm: string -> string): (r: Value)
    ensures r == Missing || exists i :: 0 <= i < |row| && row[i].1 == r
    ensures r == Null ==> ExactMatch(row, candidates).None?
                          && FuzzyMatch(row, NormIndex(Keys(row), norm), norm, candidates).None?
    ensures ExactMatch(row, candidates).Some? ==> r == ExactMatch(row, candidates).value
    ensures ExactMatch(row, candidates).None? && FuzzyMatch(row, NormIndex(Keys(row), norm), norm, candidates).Some? ==>
              r == FuzzyMatch(row, NormIndex(Keys(row), norm), norm, candidates).value
    ensures ExactMatch(row, candidates).None? && FuzzyMatch(row, NormIndex(Keys(row), norm), norm, candidates).None?
            && ContainsMatch(row, norm, candidates).Some? ==>
              r == ContainsMatch(row, norm, candidates).value
    ensures ExactMatch(row, candidates).None? && FuzzyMatch(row, NormIndex(Keys(row), norm), norm, candidates).None?
            && ContainsMatch(row, norm, candidates).None? ==>
              r == Missing
  {
    match ExactMatch(row, candidates)
    case Some(v) => v
    case None =>
      match FuzzyMatch(row, NormIndex(Keys(row), norm), norm, candidates)
      case Some(v) => v
      case None =>
        match ContainsMatch(row, norm, candidates)
        case Some(v) => v
        case None => Missing
  }

  /** The first loop of the resolver: exact spellings, in order, stopping at
      the first hit. */
  method ExactStage(row: Fields, candidates: seq<string>) returns (r: Option<Value>)
    ensures r == ExactMatch(row, candidates)
  {
    for i := 0 to |candidates|
      invariant forall j :: 0 <= j < i ==> !ExactHit(row, candidates[j])
    {
      var v := Get(row, candidates[i]);
      if v != Missing && v != Null {
        FindFirstAt(candidates, c => ExactHit(row, c), i);
        return Some(v);
      }
    }
    return None;
  }

  /** The fold over the row's keys that builds the dictionary of normal forms. */
  method BuildIndex(keys: seq<string>, norm: string -> string) returns (m: map<string, string>)
    ensures m == NormIndex(keys, norm)
  {
    m := map[];
    for i := 0 to |keys|
      invariant m == NormIndex(keys[..i], norm)
    {
      assert keys[..i + 1][..i] == keys[..i];
      m := m[norm(keys[i]) := keys[i]];
    }
    assert keys[..|keys|] == keys;
  }

  /** The second loop: each candidate's normal form looked up in the
      dictionary, stopping at the first hit. */
  method FuzzyStage(row: Fields, index: map<string, string>, norm: string -> string,
                    candidates: seq<string>) returns (r: Option<Value>)
    ensures r == FuzzyMatch(row, index, norm, candidates)
  {
    for i := 0 to |candidates|
      invariant forall j :: 0 <= j < i ==> !FuzzyHit(row, index, norm, candidates[j])
    {
      var target := norm(candidates[i]);
      if target in index {
        var originalKey := index[target];
        var v := Get(row, originalKey);
        if originalKey != "" && v != Missing && v != Null {
          FindFirstAt(candidates, c => FuzzyHit(row, index, norm, c), i);
          return Some(v);
        }
      }
    }
    return None;
  }

  /** The third loop: candidates of three or more normalised characters,
      searched for inside the normal forms of the row's keys. */
  method ContainsStage(row: Fields, norm: string -> string, candidates: seq<string>) returns (r: Option<Value>)
    ensures r == ContainsMatch(row, norm, candidates)
  {
    for i := 0 to |candidates|
      invariant forall j :: 0 <= j < i ==> !ContainsHit(row, norm, candidates[j])
    {
      var target := norm(candidates[i]);
      var foundKey := if |target| >= 3 then FoundKey(row, norm, target) else None;
      if foundKey.Some? && foundKey.value != "" && Get(row, foundKey.value) != Missing {
        ContainsMatchAt(row, norm, candidates, i);
        return Some(Get(row, foundKey.value));
      }
      assert !ContainsHit(row, norm, candidates[i]);
    }
    return None;
  }

  /** The resolver as the page runs it: the three loops in turn, each
      returning early on a hit, and `undefined` after the last. */
  method GetValue(row: Fields, candidates: seq<string>) returns (r: Value)
    ensures r == ResolveValue(row, candidates, NormalizeText)
  {
    var exact := ExactStage(row, candidates);
    if exact.Some? {
      return exact.value;
    }
    var index := BuildIndex(Keys(row), NormalizeText);
    var fuzzy := FuzzyStage(row, index, NormalizeText, candidates);
    if fuzzy.Some? {
      return fuzzy.value;
    }
    var contains := ContainsStage(row, NormalizeText, candidates);
    if contains.Some? {
      return contains.value;
    }
    return Missing;
  }

  /** An exact spelling wins: when candidate `i` is the first exact hit, its
      value is the result, whatever the later stages would have found. */
  lemma ExactFirst(row: Fields, candidates: seq<string>, i: nat, norm: string -> string)
    requires i < |candidates| && ExactHit(row, candidates[i])
    requires forall j :: 0 <= j < i ==> !ExactHit(row, candidates[j])
    ensures ResolveValue(row, candidates, norm) == Get(row, candidates[i])
  {
    FindFirstAt(candidates, c => ExactHit(row, c), i);
  }

  /** A header spelt differently from every candidate is still found when it
      has the same normal form as one of them, or (for candidates of three or
      more normalised characters) when its normal form contains the
      candidate's: a one-column row yields its value. */
  lemma SingleColumnFound(k: string, v: Value, candidates: seq<string>, i: nat, norm: string -> string)
    requires i < |candidates| && k != "" && !IsNullish(v)
    requires norm(k) == norm(candidates[i])
             || (|norm(candidates[i])| >= 3 && Includes(norm(k), norm(candidates[i])))
    ensures ResolveValue([(k, v)], candidates, norm) == v
  {
    var row := [(k, v)];
    var index := NormIndex(Keys(row), norm);
    if ExactMatch(row, candidates).None? {
      if norm(k) == norm(candidates[i]) {
        NormIndexLast(Keys(row), norm, 0);
        assert FuzzyHit(row, index, norm, candidates[i]);
      } else if FuzzyMatch(row, index, norm, candidates).None? {
        assert KeyContains(norm, row[0].0, norm(candidates[i]));
        FoundKeyFirst(row, norm, norm(candidates[i]));
        assert ContainsHit(row, norm, candidates[i]);
      }
    }
  }
}
