/** Values the commit report is computed from: commits, branches, the repository
    handle as an abstract value, and the error-carrying results of every step. */
module Types {

  /** The hour, 0 to 23, of a commit's committer timestamp in the location the
      timestamp carries (what `Committer.When.Hour()` gives). */
  type Hour = h: int | 0 <= h < 24

  /** A commit as the statistics see it: the rendered author identity
      ("name <email>"), the committer instant, and the hour of that instant. */
  datatype Commit = Commit(author: string, time: int, hour: Hour)

  /** Failures a report can end with. `GitError` stands for any error the
      repository library returns; `IndexOutOfRange` for the run-time fault of
      indexing an empty URL list. */
  datatype Error = GitError(reason: string) | IndexOutOfRange

  /** An optional value; a missing commit stands for Go's nil. */
  datatype Option<T> = None | Some(value: T)

  /** A value or the first error met while computing it; usable with `:-`,
      which mirrors `if err != nil { return ..., err }`. */
  datatype Result<T> = Ok(value: T) | Err(error: Error) {

    predicate IsFailure() {
      Err?
    }

    function PropagateFailure<U>(): Result<U>
      requires Err?
    {
      Err(error)
    }

    function Extract(): T
      requires Ok?
    {
      value
    }
  }

  /** A local branch and what asking for its (already date-filtered) log yields. */
  datatype Branch = Branch(name: string, log: Result<seq<Commit>>)

  /** An opened repository: what listing its branches yields, in enumeration
      order, and what looking up the URLs of remote "origin" yields. */
  datatype Repo = Repo(branches: Result<seq<Branch>>, originUrls: Result<seq<string>>)
}
