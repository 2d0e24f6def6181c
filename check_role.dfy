/** The role gate (src/helper/check-role.helper.js): fixed lists of roles and a
    membership test, in a throwing and a boolean version. */
module CheckRole {
  import opened Wrappers
  import opened Errors

  const Admin: string := "ADMIN"
  const Teacher: string := "TEACHER"
  const Parent: string := "PARENT"

  // The ROLE table.
  const IsAdmin: seq<string> := [Admin]
  const IsAdminTeacher: seq<string> := [Admin, Teacher]
  const IsTeacher: seq<string> := [Teacher]
  const IsAdminParent: seq<string> := [Admin, Parent]
  const IsParent: seq<string> := [Parent]
  const IsAllRole: seq<string> := [Admin, Teacher, Parent]

  /** The truthiness of a role: undefined (None) and the empty string are falsy. */
  predicate RolePresent(role: Option<string>) {
    role.Some? && role.value != ""
  }

  /** The condition under which both checks let the caller through. */
  predicate Allowed(roles: Option<seq<string>>, role: Option<string>) {
    RolePresent(role) && roles.Some? && role.value in roles.value
  }

  const NoRole: Failure := ApiError(Forbidden, "You dont insert the role!")
  const NoRoles: Failure := ApiError(Forbidden, "You dont insert roles to lookup!")
  const NotAllowed: Failure := ApiError(Forbidden, "Unauthorized, Forbidden Access!")

  /** `checkAllowedRole(roles, role)`: true when the role is in the list; otherwise it
      throws Forbidden, naming a missing role before a missing list. An array,
      even an empty one, is truthy, so only an absent list counts as missing. */
  function CheckAllowedRole(roles: Option<seq<string>>, role: Option<string>): (r: Result<bool, Failure>)
    ensures r.Success? <==> Allowed(roles, role)
    ensures r.Success? ==> r.value
    ensures r.Failure? ==> r.error.ApiError? && r.error.code == Forbidden
    ensures !RolePresent(role) ==> r == Failure(NoRole)
    ensures RolePresent(role) && roles.None? ==> r == Failure(NoRoles)
    ensures RolePresent(role) && roles.Some? && role.value !in roles.value ==> r == Failure(NotAllowed)
  {
    if !RolePresent(role) then Failure(NoRole)
    else if roles.None? then Failure(NoRoles)
    else if role.value !in roles.value then Failure(NotAllowed)
    else Success(true)
  }

  /** `checkAllowedRoleWithoutThrowError(roles, role)`: the same test, answering
      false where the throwing version throws. */
  function CheckAllowedRoleWithoutThrowError(roles: Option<seq<string>>, role: Option<string>): (b: bool)
    ensures b == CheckAllowedRole(roles, role).Success?
  {
    if !RolePresent(role) then false
    else if roles.None? then false
    else role.value in roles.value
  }

  /** IS_ADMIN_TEACHER admits exactly ADMIN and TEACHER. */
  lemma AdminTeacherGate(role: Option<string>)
    ensures CheckAllowedRole(Some(IsAdminTeacher), role).Success?
        <==> role == Some(Admin) || role == Some(Teacher)
  {
  }

  /** IS_ADMIN admits exactly ADMIN. */
  lemma AdminGate(role: Option<string>)
    ensures CheckAllowedRole(Some(IsAdmin), role).Success? <==> role == Some(Admin)
  {
  }

  /** IS_ALL_ROLE admits exactly the three roles. */
  lemma AllRoleGate(role: Option<string>)
    ensures CheckAllowedRole(Some(IsAllRole), role).Success?
        <==> role == Some(Admin) || role == Some(Teacher) || role == Some(Parent)
  {
  }

  /** Every list of the ROLE table is contained in IS_ALL_ROLE, so whatever one
      of them admits, IS_ALL_ROLE admits too. */
  lemma RoleListsWithinAllRole(roles: seq<string>, role: Option<string>)
    requires roles in {IsAdmin, IsAdminTeacher, IsTeacher, IsAdminParent, IsParent, IsAllRole}
    ensures forall x :: x in roles ==> x in IsAllRole
    ensures CheckAllowedRole(Some(roles), role).Success? ==> CheckAllowedRole(Some(IsAllRole), role).Success?
  {
  }
}
