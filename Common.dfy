/** Shared vocabulary of the library core: the failure kinds that the
    exception classes of the system stand for, result wrappers, and the
    blank-string test used by the entity constructors. */
module LibraryCommon {

  /** One variant per exception the core throws. `IllegalArgument` stands for
      java.lang.IllegalArgumentException (rejected constructor arguments,
      a total below the number on loan, a negative stream limit). */
  datatype ErrorKind =
    | IllegalArgument
    | BookNotFound
    | BookNotAvailable
    | UserNotFound
    | DuplicateBook
    | DuplicateUser
    | BorrowLimitExceeded
    | TransactionNotFound
    | InvalidTransaction

  datatype Option<+T> = None | Some(value: T)

  /** The value of an operation that returns something or throws. */
  datatype Result<+T> = Ok(value: T) | Err(error: ErrorKind)

  /** The value of a `void` operation that may throw. */
  datatype Outcome = Pass | Fail(error: ErrorKind)

  /** `s.trim().isEmpty()`: trimming strips every leading and trailing
      character at or below U+0020, so the trimmed string is empty exactly
      when every character of `s` is at or below U+0020. */
  predicate IsBlank(s: string) {
    forall i :: 0 <= i < |s| ==> s[i] <= ' '
  }

  /** `trim()` as a reference: drop leading, then trailing, characters
      at or below U+0020. */
  function Trim(s: string): (r: string)
    ensures |r| <= |s|
    ensures r == [] || (r[0] > ' ' && r[|r| - 1] > ' ')
  {
    TrimTrailing(TrimLeading(s))
  }

  function TrimLeading(s: string): (r: string)
    ensures |r| <= |s| && r == s[|s| - |r|..]
    ensures r == [] || r[0] > ' '
    ensures forall i :: 0 <= i < |s| - |r| ==> s[i] <= ' '
  {
    if |s| > 0 && s[0] <= ' ' then TrimLeading(s[1..]) else s
  }

  function TrimTrailing(s: string): (r: string)
    ensures |r| <= |s| && r == s[..|r|]
    ensures r == [] || r[|r| - 1] > ' '
    ensures forall i :: |r| <= i < |s| ==> s[i] <= ' '
  {
    if |s| > 0 && s[|s| - 1] <= ' ' then TrimTrailing(s[..|s| - 1]) else s
  }

  /** `s.trim().isEmpty()` holds exactly for the blank strings. */
  lemma BlankIffTrimEmpty(s: string)
    ensures IsBlank(s) <==> Trim(s) == ""
  {
    var lead := TrimLeading(s);
    if lead != [] {
      assert s[|s| - |lead|] == lead[0];
    }
  }
}
