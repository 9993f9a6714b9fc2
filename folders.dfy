/** The folder name used for a run, with characters that paths reject replaced. */
module Folders {

  /** The characters `<>:"/\|?*`, each replaced by `_`. */
  const Reserved: set<char> := {'<', '>', ':', '\"', '/', '\\', '|', '?', '*'}

  /** Replaces every reserved character of `name` by `_` and keeps all others. */
  function Sanitize(name: string): (clean: string)
    ensures |clean| == |name|
    ensures forall i :: 0 <= i < |name| ==>
              clean[i] == if name[i] in Reserved then '_' else name[i]
    decreases |name|
  {
    if name == [] then []
    else [if name[0] in Reserved then '_' else name[0]] + Sanitize(name[1..])
  }

  /** A sanitised name holds no reserved character. */
  lemma SanitizeRemovesReserved(name: string)
    ensures forall c :: c in Sanitize(name) ==> c !in Reserved
  {
  }

  /** Sanitising twice gives the same name as sanitising once. */
  lemma SanitizeIdempotent(name: string)
    ensures Sanitize(Sanitize(name)) == Sanitize(name)
  {
  }

  /** A name without reserved characters is kept as it is. */
  lemma SanitizeKeepsClean(name: string)
    requires forall c :: c in name ==> c !in Reserved
    ensures Sanitize(name) == name
  {
  }
}
