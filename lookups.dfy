/** The two lookups the entry printers of both copies make on decoded values: the
    section-type name, which falls back to "Unknown" whenever the registry lookup
    raises, and the severity name, which is a plain Python list index. */
module Lookups {
  import opened Results
  import opened PredefinedValues

  /** `xs[i]` on a Python list: a negative index counts from the end, and an index
      outside [-len, len) raises IndexError. */
  function PyIndex<T>(xs: seq<T>, i: int): (r: Result<T>)
    ensures r.Success? <==> -|xs| <= i < |xs|
    ensures r.Failure? ==> r.error == OutOfRange
    ensures 0 <= i < |xs| ==> r == Success(xs[i])
  {
    if 0 <= i < |xs| then Success(xs[i])
    else if -|xs| <= i < 0 then Success(xs[|xs| + i])
    else Failure(OutOfRange)
  }

  /** A negative index names the same element as the index |xs| places further on. */
  lemma PyIndexWraps<T>(xs: seq<T>, i: int)
    requires 0 <= i < |xs|
    ensures PyIndex(xs, i - |xs|) == PyIndex(xs, i)
  {
  }

  /** `section_types[guid]["name"]` inside `try`, with "Unknown" in the `except`
      branch. `types` is None when the module defines no `section_types` at all, so
      that even the attribute lookup raises. */
  function SectionName(types: Option<map<string, SectionType>>, guid: string): (name: string)
    ensures name != "Unknown" ==> types.Some? && guid in types.value && name == types.value[guid].name
    ensures types.Some? && guid in types.value ==> name == types.value[guid].name
  {
    match types
    case None => "Unknown"
    case Some(m) => if guid in m then m[guid].name else "Unknown"
  }
}
