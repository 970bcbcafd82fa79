/** The elements of a sequence. */
module Sets {
  function SetOf<T>(s: seq<T>): set<T> {
    set x | x in s
  }

  lemma SetOfSplit<T>(a: seq<T>, b: seq<T>)
    ensures SetOf(a + b) == SetOf(a) + SetOf(b)
  {
  }
}
