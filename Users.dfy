/** Registered users: the two concrete kinds of the abstract `User`
    class, as one closed sum type, and the borrowing limit of each kind. */
module Users {
  import opened LibraryCommon

  /** `Member.MAX_BOOKS`; a PREMIUM member gets this plus 5. */
  const MemberMaxBooks: nat := 5
  const PremiumBonus: nat := 5
  /** `Librarian.MAX_BOOKS`. */
  const LibrarianMaxBooks: nat := 20

  datatype User =
    | Member(userId: string, name: string, email: string, phoneNumber: string, membershipType: string)
    | Librarian(userId: string, name: string, email: string, phoneNumber: string, employeeId: string)

  /** The `User` constructor: a blank user id is refused. */
  function NewMember(userId: string, name: string, email: string, phoneNumber: string,
                     membershipType: string): (r: Result<User>)
    ensures r.Ok? <==> !IsBlank(userId)
    ensures r.Err? ==> r.error == IllegalArgument
    ensures r.Ok? ==> r.value.Member? && r.value.userId == userId && r.value.membershipType == membershipType
                      && r.value.name == name && r.value.email == email && r.value.phoneNumber == phoneNumber
  {
    if IsBlank(userId) then Err(IllegalArgument)
    else Ok(Member(userId, name, email, phoneNumber, membershipType))
  }

  function NewLibrarian(userId: string, name: string, email: string, phoneNumber: string,
                        employeeId: string): (r: Result<User>)
    ensures r.Ok? <==> !IsBlank(userId)
    ensures r.Err? ==> r.error == IllegalArgument
    ensures r.Ok? ==> r.value.Librarian? && r.value.userId == userId && r.value.employeeId == employeeId
                      && r.value.name == name && r.value.email == email && r.value.phoneNumber == phoneNumber
  {
    if IsBlank(userId) then Err(IllegalArgument)
    else Ok(Librarian(userId, name, email, phoneNumber, employeeId))
  }

  /** `getMaxBooksAllowed`: only the exact membership type "PREMIUM" earns
      the larger allowance; any other string counts as a regular member. */
  function MaxBooksAllowed(u: User): (r: nat)
    ensures r == 5 || r == 10 || r == 20
    ensures r == 20 <==> u.Librarian?
    ensures r == 10 <==> u.Member? && u.membershipType == "PREMIUM"
  {
    match u
    case Member(_, _, _, _, membershipType) =>
      if membershipType == "PREMIUM" then MemberMaxBooks + PremiumBonus else MemberMaxBooks
    case Librarian(_, _, _, _, _) => LibrarianMaxBooks
  }
}
