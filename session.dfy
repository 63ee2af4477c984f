/** The signed-in principal as the pages see it (`useAuth().user`). How it is
    stored and how a login produces it is not part of this model. */
module Session {
  import opened Wrappers

  datatype Role = StudentRole | InstituteRole | GovernmentRole

  datatype User = User(
    id: string,
    name: string,
    email: string,
    role: Role,
    abcId: Option<string>,
    institute: Option<string>)

  /** `user?.institute` where it is truthy: a signed-in user with a non-empty
      institute. */
  function InstituteOf(user: Option<User>): Option<string> {
    if user.Some? && user.value.institute.Some? && user.value.institute.value != ""
    then Some(user.value.institute.value)
    else None
  }

  /** `!!s` for an optional route parameter: present and non-empty. */
  predicate Truthy(s: Option<string>) {
    s.Some? && s.value != ""
  }
}
