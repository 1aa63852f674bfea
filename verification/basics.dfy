/** Small failure-carrying wrappers shared by the whole model. */
module Basics {

  /** A value that may be absent (Python's `None`). */
  datatype Option<+T> = None | Some(value: T)

  /** The outcome of a step that may raise: `Err` carries `str(e)` of the exception. */
  datatype Result<+T> = Ok(value: T) | Err(msg: string)

  /** The positions of `s` whose entry satisfies `p`. */
  ghost function Where<T>(s: seq<T>, p: T -> bool): set<int> {
    set i | 0 <= i < |s| && p(s[i])
  }

  /** Appending one entry adds its position exactly when it satisfies `p`. */
  lemma WhereSnoc<T>(s: seq<T>, x: T, p: T -> bool)
    ensures |Where(s + [x], p)| == |Where(s, p)| + (if p(x) then 1 else 0)
  {
    var t := s + [x];
    assert forall i :: 0 <= i < |s| ==> t[i] == s[i];
    if p(x) {
      assert Where(t, p) == Where(s, p) + {|s|};
    } else {
      assert Where(t, p) == Where(s, p);
    }
  }
}
