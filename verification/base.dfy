/** Option and Result types shared by every module of the model.
    `Option` stands for a Python value that may be `None` or absent from a dict;
    `Result` stands for a call that may raise. */
module Base {

  datatype Option<+T> = None | Some(value: T) {

    /** Python's `x or default` for a value whose only falsy form is None. */
    function GetOr(default: T): T {
      match this
      case Some(v) => v
      case None => default
    }
  }

  datatype Result<+T, +E> = Ok(value: T) | Err(error: E)

  /** The values of the `Some` entries of `os`, in order: the shape of a loop
      that appends to its output only for some inputs. */
  function Somes<T(!new)>(os: seq<Option<T>>): (r: seq<T>)
    ensures |r| <= |os|
    ensures forall x :: x in r <==> Some(x) in os
  {
    if |os| == 0 then []
    else
      var rest := Somes(os[1..]);
      assert forall o :: o in os <==> o == os[0] || o in os[1..];
      if os[0].Some? then [os[0].value] + rest else rest
  }

  lemma {:induction false} SomesAppend<T(!new)>(a: seq<Option<T>>, b: seq<Option<T>>)
    ensures Somes(a + b) == Somes(a) + Somes(b)
  {
    if |a| == 0 {
      assert a + b == b;
    } else {
      assert (a + b)[0] == a[0] && (a + b)[1..] == a[1..] + b;
      SomesAppend(a[1..], b);
    }
  }
}
