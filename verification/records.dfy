/**
 Rows of the three tables of the library database. Clock values are not
 modelled: a loan's `return_date` is only ever compared with None, so it
 becomes the flag `returned`.
 */
module Records {

  /** A row of `books`; `available` is true while the book is not on loan. */
  datatype Book = Book(id: nat, title: string, author: string, available: bool)

  /** The role string stored in `users`. */
  datatype Role = AdminRole | MemberRole
  {
    function Name(): string
    {
      match this
      case AdminRole => "Admin"
      case MemberRole => "Member"
    }
  }

  /** A row of `users`. */
  datatype UserModel = UserModel(id: nat, name: string, role: Role)

  /** A row of `loan_history`; `returned` stands for a non-null return date. */
  datatype Loan = Loan(id: nat, userId: nat, bookId: nat, returned: bool)
}
