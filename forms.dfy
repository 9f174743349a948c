/**
 * The two deploy-form components of the client. `DeployForm` edits a list of
 * member addresses and hands the form's values to a submit callback;
 * `DeployForm2` keeps a roster of contributor addresses, each validated and
 * none repeated, fed from a pending text input by the Enter key and by paste.
 */
module Forms {
  import opened Options
  import opened Sequences
  import opened Events

  // ===================================================== DeployForm: submit

  /** What `on_submit` passes to the deployment callback. */
  datatype ProjectParams = ProjectParams(
    token: string,
    description: string,
    residual: string,
    members: seq<string>,
    target: string,
    targetShare: string,
    executionDeadline: int,
    completionDeadline: int)

  /** `t.replaceAll(',', '')`: the thousands separators the number mask inserts, removed. */
  function StripCommas(t: string): (r: string)
    ensures ',' !in r
    ensures |r| == |t| - multiset(t)[',']
  {
    WithoutLength(t, ',');
    Without(t, ',')
  }

  /** Stripping leaves no comma and deletes nothing but commas; a second strip changes nothing. */
  lemma StripCommasSpec(t: string)
    ensures ',' !in StripCommas(t)
    ensures multiset(StripCommas(t)) == multiset(t)[',' := 0]
    ensures StripCommas(StripCommas(t)) == StripCommas(t)
    ensures ',' !in t ==> StripCommas(t) == t
  {
    WithoutMultiset(t, ',');
    WithoutIdempotent(t, ',');
    if ',' !in t {
      WithoutAbsent(t, ',');
    }
  }

  /** The characters left keep their order: stripping works piece by piece. */
  lemma StripCommasAppend(a: string, b: string)
    ensures StripCommas(a + b) == StripCommas(a) + StripCommas(b)
  {
    WithoutAppend(a, b, ',');
  }

  /**
   * The argument of the `onSubmit` call that `on_submit` makes, or `None` when
   * the null guard returns before calling it. Deadlines are their time values.
   */
  function SubmitParams(
    token: string, description: string, residual: string, members: seq<string>,
    target: Option<string>, targetShare: Option<string>,
    executionDeadline: Option<int>, completionDeadline: Option<int>): (r: Option<ProjectParams>)
    ensures r.None? <==>
      target.None? || targetShare.None? || executionDeadline.None? || completionDeadline.None?
    ensures r.Some? ==>
      r.value.token == token && r.value.description == description &&
      r.value.residual == residual && r.value.members == members &&
      r.value.executionDeadline == executionDeadline.value &&
      r.value.completionDeadline == completionDeadline.value
    ensures r.Some? ==> ',' !in r.value.target && ',' !in r.value.targetShare
    ensures r.Some? ==>
      multiset(r.value.target) == multiset(target.value)[',' := 0] &&
      multiset(r.value.targetShare) == multiset(targetShare.value)[',' := 0]
    ensures r.Some? ==>
      r.value.target == StripCommas(target.value) &&
      r.value.targetShare == StripCommas(targetShare.value)
    ensures r.Some? ==>
      StripCommas(r.value.target) == r.value.target &&
      StripCommas(r.value.targetShare) == r.value.targetShare
  {
    if target.None? || targetShare.None? || executionDeadline.None? || completionDeadline.None? then
      None
    else
      StripCommasSpec(target.value);
      StripCommasSpec(targetShare.value);
      Some(ProjectParams(token, description, residual, members,
                         StripCommas(target.value), StripCommas(targetShare.value),
                         executionDeadline.value, completionDeadline.value))
  }

  // ===================================================== DeployForm: state

  const DefaultResidual: string := "0x15d34aaf54267db7d7c367839aaf71a00a2c6a65"
  const InitialMembers: seq<string> :=
    ["0x3c44cdddb6a900fa2b585dd299e03d12fa4293bc", "0x90f79bf6eb2c4f870365e785982e1f101e93b906"]
  const InitialTarget: string := "4000000000000000000"
  const InitialTargetShare: string := "2000000000000000000"

  class DeployForm {
    var token: string
    var description: string
    var residual: string
    var members: seq<string>
    var target: Option<string>
    var targetShare: Option<string>
    var executionDeadline: Option<int>
    var completionDeadline: Option<int>

    /**
     * The initial state. `defaultToken` stands for the environment's default
     * token address; the two deadlines for the next Monday and the Monday after.
     */
    constructor (defaultToken: string, nextMonday: int, nextNextMonday: int)
      ensures token == defaultToken && description == "" && residual == DefaultResidual
      ensures members == InitialMembers
      ensures target == Some(InitialTarget) && targetShare == Some(InitialTargetShare)
      ensures executionDeadline == Some(nextMonday) && completionDeadline == Some(nextNextMonday)
    {
      token, description, residual := defaultToken, "", DefaultResidual;
      members := InitialMembers;
      target, targetShare := Some(InitialTarget), Some(InitialTargetShare);
      executionDeadline, completionDeadline := Some(nextMonday), Some(nextNextMonday);
    }

    /** The text field of member `i` changed to `value`. */
    method EditMember(i: int, value: string)
      modifies this`members
      ensures members == ReplaceAt(old(members), i, value)
      ensures |members| == |old(members)|
      ensures forall j :: 0 <= j < |members| && j != i ==> members[j] == old(members)[j]
      ensures 0 <= i < |members| ==> members[i] == value
    {
      members := ReplaceAt(members, i, value);
      forall j | 0 <= j < |members| ensures members[j] == if j == i then value else old(members)[j] {
        ReplaceAtIndex(old(members), i, value, j);
      }
    }

    /** The remove icon of member `i` was clicked. */
    method RemoveMember(i: int)
      modifies this`members
      ensures members == RemoveAt(old(members), i)
      ensures 0 <= i < |old(members)| ==> members == old(members)[..i] + old(members)[i + 1..]
    {
      members := RemoveAt(members, i);
      if 0 <= i < |old(members)| {
        RemoveAtSplit(old(members), i);
      }
    }

    /** "Add Member" was clicked: one empty field at the end. */
    method AddMember()
      modifies this`members
      ensures members == old(members) + [""]
      ensures RemoveAt(members, |old(members)|) == old(members)
    {
      members := members + [""];
      RemoveAtLastAppended(old(members), "");
    }

    /**
     * The form was submitted. `sent` is what the deployment callback receives,
     * `None` when it is not called; the event is consumed only when it is.
     */
    method OnSubmit(e: Event) returns (sent: Option<ProjectParams>)
      modifies e
      ensures sent == SubmitParams(token, description, residual, members,
                                   target, targetShare, executionDeadline, completionDeadline)
      ensures sent.Some? ==> e.defaultPrevented && e.propagationStopped
      ensures sent.None? ==>
        e.defaultPrevented == old(e.defaultPrevented) && e.propagationStopped == old(e.propagationStopped)
    {
      if target.None? || targetShare.None? || executionDeadline.None? || completionDeadline.None? {
        return None;
      }
      sent := Some(ProjectParams(token, description, residual, members,
                                 StripCommas(target.value), StripCommas(targetShare.value),
                                 executionDeadline.value, completionDeadline.value));
      e.PreventDefault();
      e.StopPropagation();
    }
  }

  // ================================================= DeployForm2: the roster

  /**
   * Whether `attempt_add_contributor` goes on to add: the validator returned a
   * truthy string (not null and not empty) that is not in the roster yet.
   */
  predicate Admits(validated: Option<string>, contributors: seq<string>)
    ensures Admits(validated, contributors) ==> validated.Some? && validated.value !in contributors
    ensures Admits(validated, contributors) && NoDuplicates(contributors) ==>
      NoDuplicates(contributors + [validated.value])
  {
    validated.Some? && validated.value != "" && validated.value !in contributors
  }

  /** The roster after an attempt with validation result `validated`. */
  function AddContributor(contributors: seq<string>, validated: Option<string>): (r: seq<string>)
    ensures contributors <= r && |r| <= |contributors| + 1
    ensures |r| == |contributors| + 1 <==> Admits(validated, contributors)
  {
    if Admits(validated, contributors) then contributors + [validated.value] else contributors
  }

  /** An attempt appends exactly the validated address at the end, or changes nothing. */
  lemma AddContributorSpec(contributors: seq<string>, validated: Option<string>)
    ensures Admits(validated, contributors) ==>
      |AddContributor(contributors, validated)| == |contributors| + 1 &&
      AddContributor(contributors, validated)[..|contributors|] == contributors &&
      AddContributor(contributors, validated)[|contributors|] == validated.value
    ensures !Admits(validated, contributors) ==> AddContributor(contributors, validated) == contributors
    ensures validated.Some? && validated.value != "" ==> validated.value in AddContributor(contributors, validated)
  {
  }

  /** An attempt never puts a duplicate or an empty string into the roster. */
  lemma AddContributorKeepsDistinct(contributors: seq<string>, validated: Option<string>)
    requires NoDuplicates(contributors) && "" !in contributors
    ensures NoDuplicates(AddContributor(contributors, validated))
    ensures "" !in AddContributor(contributors, validated)
  {
  }

  /**
   * Once a raw string has been tried, a second one the validator maps to the
   * same value (the same string again, or another spelling of the same
   * address) is rejected and leaves the roster as it is.
   */
  lemma SecondAttemptRejected(validate: string -> Option<string>, contributors: seq<string>, x: string, y: string)
    requires validate(y) == validate(x)
    ensures !Admits(validate(y), AddContributor(contributors, validate(x)))
    ensures AddContributor(AddContributor(contributors, validate(x)), validate(y)) ==
            AddContributor(contributors, validate(x))
  {
  }

  /** Adding three addresses keeps them in that order; removing the middle one leaves the outer two. */
  lemma InsertionOrderScenario(a1: string, a2: string, a3: string)
    requires a1 != "" && a2 != "" && a3 != ""
    requires a1 != a2 && a2 != a3 && a1 != a3
    ensures AddContributor(AddContributor(AddContributor([], Some(a1)), Some(a2)), Some(a3)) == [a1, a2, a3]
    ensures Without([a1, a2, a3], a2) == [a1, a3]
  {
    assert AddContributor([], Some(a1)) == [a1];
    assert AddContributor([a1], Some(a2)) == [a1, a2];
    assert [a1, a2, a3][1..] == [a2, a3];
    assert [a2, a3][1..] == [a3];
    assert [a3][1..] == [];
    assert Without([a3], a2) == [a3];
    assert Without([a2, a3], a2) == [a3];
  }

  class DeployForm2 {
    /** `validate_address`, whose definition is not part of this model. */
    const validate: string -> Option<string>
    var contributors: seq<string>
    var currentContributor: string

    /** `c` is something the validator returns for some raw input. */
    ghost predicate Validated(c: string) {
      exists raw :: validate(raw) == Some(c)
    }

    /** The roster holds validated, non-empty addresses, each once. */
    ghost predicate Valid()
      reads this
    {
      NoDuplicates(contributors) &&
      forall k :: 0 <= k < |contributors| ==> contributors[k] != "" && Validated(contributors[k])
    }

    constructor (validate: string -> Option<string>)
      ensures this.validate == validate
      ensures Valid() && contributors == [] && currentContributor == ""
    {
      this.validate := validate;
      contributors, currentContributor := [], "";
    }

    /** `contributor_on_change`: the pending input takes what was typed; nothing is validated. */
    method ContributorOnChange(value: string)
      modifies this`currentContributor
      ensures currentContributor == value
    {
      currentContributor := value;
    }

    /**
     * `attempt_add_contributor`: true exactly when the validated address was
     * appended, in which case the pending input is cleared; on false nothing changes.
     */
    method AttemptAddContributor(address: string) returns (added: bool)
      requires Valid()
      modifies this`contributors, this`currentContributor
      ensures Valid()
      ensures added == Admits(validate(address), old(contributors))
      ensures contributors == AddContributor(old(contributors), validate(address))
      ensures added ==> contributors == old(contributors) + [validate(address).value] && currentContributor == ""
      ensures !added ==> contributors == old(contributors) && currentContributor == old(currentContributor)
    {
      var validatedAddress := validate(address);
      if validatedAddress.None? || validatedAddress.value == "" || validatedAddress.value in contributors {
        return false;
      }
      AppendAbsentKeepsDistinct(contributors, validatedAddress.value);
      contributors := contributors + [validatedAddress.value];
      currentContributor := "";
      added := true;
      assert validate(address) == Some(validatedAddress.value);
      assert forall k :: 0 <= k < |contributors| - 1 ==> contributors[k] == old(contributors)[k];
    }

    /** `contributor_on_keydown`: Enter tries the pending input and always consumes the event. */
    method ContributorOnKeyDown(key: string, e: Event)
      requires Valid()
      modifies this`contributors, this`currentContributor, e
      ensures Valid()
      ensures key == "Enter" ==>
        var validated := validate(old(currentContributor));
        contributors == AddContributor(old(contributors), validated) &&
        currentContributor == (if Admits(validated, old(contributors)) then "" else old(currentContributor)) &&
        e.defaultPrevented && e.propagationStopped
      ensures key != "Enter" ==>
        contributors == old(contributors) && currentContributor == old(currentContributor) &&
        e.defaultPrevented == old(e.defaultPrevented) && e.propagationStopped == old(e.propagationStopped)
    {
      if key == "Enter" {
        var _ := AttemptAddContributor(currentContributor);
        e.StopPropagation();
        e.PreventDefault();
      }
    }

    /**
     * `contributor_on_paste`: tries the pasted text and suppresses the paste
     * exactly when it was added.
     */
    method ContributorOnPaste(text: string, e: Event)
      requires Valid()
      modifies this`contributors, this`currentContributor, e
      ensures Valid()
      ensures contributors == AddContributor(old(contributors), validate(text))
      ensures currentContributor ==
        if Admits(validate(text), old(contributors)) then "" else old(currentContributor)
      ensures Admits(validate(text), old(contributors)) ==> e.defaultPrevented
      ensures !Admits(validate(text), old(contributors)) ==> e.defaultPrevented == old(e.defaultPrevented)
      ensures e.propagationStopped == old(e.propagationStopped)
    {
      var added := AttemptAddContributor(text);
      if added {
        e.PreventDefault();
      }
    }

    /** `remove_contributor`: every entry equal to `c` filtered out, the rest kept in order. */
    method RemoveContributor(c: string)
      requires Valid()
      modifies this`contributors
      ensures Valid()
      ensures contributors == Without(old(contributors), c)
      ensures c !in contributors
      ensures c !in old(contributors) ==> contributors == old(contributors)
      ensures forall k :: 0 <= k < |old(contributors)| && old(contributors)[k] == c ==>
        contributors == old(contributors)[..k] + old(contributors)[k + 1..]
    {
      WithoutKeepsDistinct(contributors, c);
      if c !in contributors {
        WithoutAbsent(contributors, c);
      }
      forall k | 0 <= k < |contributors| && contributors[k] == c
        ensures Without(contributors, c) == contributors[..k] + contributors[k + 1..]
      {
        WithoutDistinct(contributors, k);
      }
      contributors := Without(contributors, c);
    }
  }

  /**
   * A run over a fresh roster: an invalid string is refused, a valid address is
   * added, the same address again is refused and leaves the roster as it was,
   * and removing it empties the roster.
   */
  method ContributorScenario(validate: string -> Option<string>, address: string)
    returns (first: bool, second: bool, third: bool, afterThird: seq<string>, roster: seq<string>)
    requires validate("not-an-address") == None
    requires validate(address) == Some(address) && address != ""
    ensures !first && second && !third
    ensures afterThird == [address]
    ensures roster == []
  {
    var form := new DeployForm2(validate);
    first := form.AttemptAddContributor("not-an-address");
    assert form.contributors == [];
    second := form.AttemptAddContributor(address);
    assert form.contributors == [address];
    third := form.AttemptAddContributor(address);
    afterThird := form.contributors;
    form.RemoveContributor(address);
    roster := form.contributors;
  }
}
