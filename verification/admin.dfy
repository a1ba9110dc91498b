/** `AdminController.EditRoles`: the comma-separated role list and the set
    algebra that brings a user's roles to the selection. The identity store's
    add and remove calls are oracle results. */
module Admin {
  import opened Wrappers

  predicate NoComma(s: string) {
    forall i :: 0 <= i < |s| ==> s[i] != ','
  }

  /** Joins parts with commas. */
  function Join(parts: seq<string>): string
    requires |parts| >= 1
  {
    if |parts| == 1 then parts[0] else parts[0] + "," + Join(parts[1..])
  }

  /** `Split(",")`: the pieces between commas, empty ones included, so that
      a string with n commas has n + 1 parts. */
  function Split(s: string): (parts: seq<string>)
    ensures |parts| >= 1
    ensures forall i :: 0 <= i < |parts| ==> NoComma(parts[i])
    ensures Join(parts) == s
  {
    if |s| == 0 then [""]
    else
      var rest := Split(s[1..]);
      if s[0] == ',' then
        assert s == "" + "," + s[1..];
        [""] + rest
      else
        var parts := [[s[0]] + rest[0]] + rest[1..];
        assert parts[1..] == rest[1..];
        assert s == [s[0]] + s[1..];
        parts
  }

  /** Splitting undoes joining parts that hold no comma. */
  lemma {:induction false} SplitJoin(parts: seq<string>)
    requires |parts| >= 1
    requires forall i :: 0 <= i < |parts| ==> NoComma(parts[i])
    ensures Split(Join(parts)) == parts
    decreases |parts|, |parts[0]|
  {
    var p := parts[0];
    if |p| > 0 {
      var shorter := [p[1..]] + parts[1..];
      assert forall i :: 0 <= i < |shorter| ==> NoComma(shorter[i]);
      assert Join(parts)[1..] == Join(shorter) by {
        if |parts| == 1 {
        } else {
          assert Join(shorter) == p[1..] + "," + Join(parts[1..]);
        }
      }
      SplitJoin(shorter);
      assert Join(parts)[0] == p[0];
      assert [p[0]] + p[1..] == p;
    } else if |parts| > 1 {
      assert Join(parts) == "," + Join(parts[1..]);
      assert Join(parts)[1..] == Join(parts[1..]);
      SplitJoin(parts[1..]);
    }
  }

  function Elements(parts: seq<string>): set<string> {
    set p | p in parts
  }

  /** The response and the user's roles afterwards (`None` for no such
      user). */
  datatype RoleEdit = RoleEdit(response: Result<set<string>>, roles: Option<set<string>>)

  /** `EditRoles`: rejects an empty selection before looking the user up;
      adds the selected roles the user lacks, then, only if that succeeded,
      removes the roles the user has but did not select. A failed removal
      leaves the added roles in place. */
  function EditRoles(roles: Option<string>, current: Option<set<string>>, addOk: bool, removeOk: bool): (r: RoleEdit)
    ensures roles.None? || roles == Some("") ==> r == RoleEdit(Failure("You must select at least one role"), current)
    ensures roles.Some? && roles != Some("") && current.None? ==> r == RoleEdit(Failure("User not found"), None)
    ensures roles.Some? && current.Some? && !addOk && roles != Some("") ==> r == RoleEdit(Failure("Failed to add to roles"), current)
    ensures roles.Some? && current.Some? && addOk && !removeOk && roles != Some("") ==>
              r == RoleEdit(Failure("Failed to remove from roles"), Some(current.value + Elements(Split(roles.value))))
    ensures roles.Some? && roles != Some("") && current.Some? && addOk && removeOk ==>
              r == RoleEdit(Success(Elements(Split(roles.value))), Some(Elements(Split(roles.value))))
    ensures r.response.Success? ==>
              && roles.Some? && current.Some? && addOk && removeOk
              && r.roles == Some(r.response.value)
              && r.response.value == Elements(Split(roles.value))
  {
    if roles.None? || roles.value == "" then RoleEdit(Failure("You must select at least one role"), current)
    else
      var selected := Elements(Split(roles.value));
      match current
      case None => RoleEdit(Failure("User not found"), None)
      case Some(userRoles) =>
        var toAdd := selected - userRoles;
        if !addOk then RoleEdit(Failure("Failed to add to roles"), current)
        else
          var added := userRoles + toAdd;
          assert added == userRoles + selected;
          var toRemove := userRoles - selected;
          if !removeOk then RoleEdit(Failure("Failed to remove from roles"), Some(added))
          else
            var final := added - toRemove;
            assert final == selected;
            RoleEdit(Success(final), Some(final))
  }

  /** The roles added are the selected ones the user lacked, the roles
      removed the ones the user had and did not select. */
  lemma RoleChangesAreDifferences(roles: string, current: set<string>)
    requires roles != ""
    ensures var after := EditRoles(Some(roles), Some(current), true, true).roles.value;
            var selected := Elements(Split(roles));
            after - current == selected - current && current - after == current - selected
  {
  }

  /** Repeating an edit that succeeded changes nothing. */
  lemma EditRolesIsIdempotent(roles: string, current: set<string>)
    requires roles != ""
    ensures var once := EditRoles(Some(roles), Some(current), true, true).roles;
            EditRoles(Some(roles), once, true, true).roles == once
  {
  }
}
