/**
  The `classList` of a DOM element, seen as the set of class tokens it holds.
  `add`, `remove` and `toggle` change one token and leave every other token alone.
 */
module ClassList {

  type Classes = set<string>

  /** `classList.add(c)`: afterwards `c` is present, nothing else changed. */
  function Add(cs: Classes, c: string): (r: Classes)
    ensures c in r
    ensures r - {c} == cs - {c}
  {
    cs + {c}
  }

  /** `classList.remove(c)`: afterwards `c` is absent, nothing else changed. */
  function Remove(cs: Classes, c: string): (r: Classes)
    ensures c !in r
    ensures r - {c} == cs - {c}
  {
    cs - {c}
  }

  /** `classList.toggle(c)`: the presence of `c` flips, nothing else changed. */
  function Toggle(cs: Classes, c: string): (r: Classes)
    ensures c in r <==> c !in cs
    ensures r - {c} == cs - {c}
  {
    if c in cs then cs - {c} else cs + {c}
  }

  /** Toggling the same token twice restores the original class list. */
  lemma ToggleTwice(cs: Classes, c: string)
    ensures Toggle(Toggle(cs, c), c) == cs
  {
  }
}
