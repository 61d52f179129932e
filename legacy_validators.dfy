/**
 * The first revision's validators: they answer `false` or `undefined`
 * instead of throwing, and never write into their argument.
 */
module LegacyValidators {
  import opened Wrappers
  import opened Text
  import opened Js
  import opened Patterns
  import Validators

  /**
   * `validateUserInput(fname, lname, email)`: trimming a non-string is
   * caught and answered with `false`; then the name lengths and pattern,
   * the address length and pattern, and the split parts are checked.
   */
  function ValidateUserInput(fname: Value, lname: Value, email: Value): (ok: bool)
    ensures ok ==> fname.Str? && lname.Str? && email.Str?
  {
    if !fname.Str? || !lname.Str? || !email.Str? then false
    else
      var f := Trim(fname.s);
      var l := Trim(lname.s);
      var e := Trim(email.s);
      if |f| > 20 || |l| > 20 then false
      else if !NameRegex(f) || !NameRegex(l) then false
      else if |e| > 254 then false
      else if !EmailRegex(e) then false
      else Validators.EmailSplitOk(e)
  }

  /** The three inputs are accepted exactly when their trimmed forms are valid names and a valid address. */
  lemma {:induction false} ValidateUserInputMeaning(fname: string, lname: string, email: string)
    ensures ValidateUserInput(Str(fname), Str(lname), Str(email)) <==>
              && |Trim(fname)| <= 20 && NameRegex(Trim(fname))
              && |Trim(lname)| <= 20 && NameRegex(Trim(lname))
              && |Trim(email)| <= 254 && EmailRegex(Trim(email))
              && '@' in Trim(email) && IndexOf(Trim(email), '@') <= 64
              && |Trim(email)| - IndexOf(Trim(email), '@') - 1 <= 253
  {
    var e := Trim(email);
    if EmailRegex(e) {
      Validators.EmailSplitOkOfMatch(e);
    }
  }

  /**
   * Whatever the first revision accepts as names and address, the patch
   * check of the later revision accepts field by field too.
   */
  lemma {:induction false} AcceptedInputPassesPatchChecks(fname: string, lname: string, email: string)
    requires ValidateUserInput(Str(fname), Str(lname), Str(email))
    ensures Validators.ValidateSingleField("fname", Str(fname)) == Ok(Trim(fname))
    ensures Validators.ValidateSingleField("lname", Str(lname)) == Ok(Trim(lname))
    ensures Validators.ValidateSingleField("email", Str(email)) == Ok(Trim(email))
  {
    NamePassesPatchCheck("fname", fname);
    NamePassesPatchCheck("lname", lname);
    EmailPassesPatchCheck(email);
  }

  lemma {:induction false} NamePassesPatchCheck(key: string, name: string)
    requires key == "fname" || key == "lname"
    requires |Trim(name)| <= 20 && NameRegex(Trim(name))
    ensures Validators.ValidateSingleField(key, Str(name)) == Ok(Trim(name))
  {
  }

  lemma {:induction false} EmailPassesPatchCheck(email: string)
    requires Validators.EmailSplitOk(Trim(email))
    ensures Validators.ValidateSingleField("email", Str(email)) == Ok(Trim(email))
  {
  }

  /**
   * `validateParamNumber`: a string with a `.`, `Number(undefined)` (which
   * is `NaN`), any other `NaN` and a negative value all give `undefined`.
   */
  function ValidateParamNumber(param: Option<string>): (r: Option<int>)
    ensures param.None? ==> r.None?
    ensures param.Some? && '.' in param.value ==> r.None?
    ensures r.Some? ==> r.value >= 0 && ParseNumber(param.value) == IntValue(r.value)
  {
    if param.None? then None
    else if '.' in param.value then None
    else
      var n := ParseNumber(param.value);
      if n.NaN? || n.v < 0 then None else Some(n.v)
  }

  /** On a present parameter both revisions agree; only a missing one differs (no default of 10 here). */
  lemma {:induction false} ParamNumberRevisionsAgree(s: string)
    ensures ValidateParamNumber(Some(s)).Some? <==> Validators.ValidateParamNumber(Some(s)).Ok?
    ensures ValidateParamNumber(Some(s)).Some? ==>
              ValidateParamNumber(Some(s)).value == Validators.ValidateParamNumber(Some(s)).value
    ensures ValidateParamNumber(None) == None && Validators.ValidateParamNumber(None) == Ok(10)
  {
  }

  /** The fields a body of this revision may carry. */
  const BodyKeys: seq<string> := ["fname", "lname", "email"]

  /** `validateUserBody`: exactly three keys, each a body field; the object itself is returned. */
  function ValidateUserBody(props: seq<(string, Value)>): (r: Option<seq<(string, Value)>>)
    ensures r.Some? ==> r.value == props
    ensures r.Some? <==> |props| == 3 && Validators.KeysAmong(props, BodyKeys)
  {
    if |Keys(props)| != 3 then None
    else if !Validators.KeysAmong(props, BodyKeys) then None
    else Some(props)
  }

  /** `validateUserPatchBody`: one to three keys, each a body field; the object itself is returned. */
  function ValidateUserPatchBody(props: seq<(string, Value)>): (r: Option<seq<(string, Value)>>)
    ensures r.Some? ==> r.value == props
    ensures r.Some? <==> 0 < |props| <= 3 && Validators.KeysAmong(props, BodyKeys)
  {
    if |Keys(props)| == 0 || |Keys(props)| > 3 then None
    else if !Validators.KeysAmong(props, BodyKeys) then None
    else Some(props)
  }

  /** Every full body is also an acceptable patch. */
  lemma {:induction false} BodyIsPatch(props: seq<(string, Value)>)
    requires ValidateUserBody(props).Some?
    ensures ValidateUserPatchBody(props) == ValidateUserBody(props)
  {
  }

  /** An accepted body of a real object carries each of the three fields exactly once. */
  lemma {:induction false} UserBodyHasEveryField(props: seq<(string, Value)>)
    requires DistinctKeys(props)
    requires ValidateUserBody(props).Some?
    ensures forall k :: k in BodyKeys <==> k in Keys(props)
  {
    var ks := Keys(props);
    assert forall i, j :: 0 <= i < j < |ks| ==> ks[i] != ks[j];
    Validators.DistinctCard(ks);
    Validators.DistinctCard(BodyKeys);
    var present := set x | x in ks;
    var allowed := set x | x in BodyKeys;
    assert present <= allowed;
    Validators.SubsetSameSize(present, allowed);
    forall k | k in BodyKeys ensures k in ks {
      assert k in allowed;
    }
  }
}
