/** The records of types.ts, and the two wrappers the views use for "maybe
    absent" (`undefined`/`null`) and for a rejected operation. */
module Types {

  datatype Option<T> = None | Some(value: T)
  {
    /** `x ?? d` */
    function GetOr(d: T): T
    {
      if Some? then value else d
    }
  }

  datatype Result<T, E> = Ok(value: T) | Err(error: E)

  /** A tag's category is exactly one of two values (types.ts:4). */
  datatype Category = Industry | WorkType

  datatype Tag = Tag(id: string, name: string, category: Category)

  /** A project record. `date` is meant to be `YYYY-MM`; `tags` holds tag ids;
      `featured` and `videoUrl` are optional fields. */
  datatype Project = Project(
    id: string,
    title: string,
    description: string,
    client: string,
    date: string,
    tags: seq<string>,
    imageUrl: string,
    gallery: seq<string>,
    featured: Option<bool>,
    videoUrl: Option<string>)

  predicate IsDigit(c: char)
  {
    '0' <= c <= '9'
  }

  /** The intended shape of `Project.date`: four digits, `-`, two digits. */
  predicate IsYearMonth(s: string)
  {
    && |s| == 7
    && IsDigit(s[0]) && IsDigit(s[1]) && IsDigit(s[2]) && IsDigit(s[3])
    && s[4] == '-'
    && IsDigit(s[5]) && IsDigit(s[6])
  }

  /** JavaScript truthiness of an optional string: present and non-empty. */
  predicate Truthy(s: Option<string>)
  {
    s.Some? && s.value != ""
  }

  /** `s || d` for an optional string. */
  function StringOr(s: Option<string>, d: string): string
  {
    if Truthy(s) then s.value else d
  }
}
