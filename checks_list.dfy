/**
 The check list the policy engine produces: an ordered, append-only list of
 entries, each mapping check names to the arguments of that check.
 */
module ChecksList {

  /** The arguments of a check, as the configuration gives them; the engine never looks inside. */
  type Args

  /** One entry of a check list: check name to its arguments. */
  type Entry = map<string, Args>

  class Checks {
    var entries: seq<Entry>

    constructor ()
      ensures entries == []
    {
      entries := [];
    }

    /** `add`: appends one entry and never touches the earlier ones. */
    method Add(e: Entry)
      modifies this
      ensures entries == old(entries) + [e]
    {
      entries := entries + [e];
    }
  }
}
