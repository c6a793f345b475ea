/** Finite lists, built and taken apart at the head. */
module Lists {

  datatype Option<+T> = None | Some(value: T)

  datatype List<T> = Nil | Cons(head: T, tail: List<T>) {

    function Plus(that: List<T>): List<T> {
      match this
      case Nil => that
      case Cons(x, xs) => Cons(x, xs.Plus(that))
    }

    function Length(): nat {
      match this
      case Nil => 0
      case Cons(_, xs) => 1 + xs.Length()
    }

    function At(k: nat): T
      requires k < Length()
    {
      if k == 0 then head else tail.At(k - 1)
    }

    lemma {:induction false} PlusAssociative(a: List<T>, b: List<T>)
      ensures Plus(a).Plus(b) == Plus(a.Plus(b))
    {
      if Cons? {
        tail.PlusAssociative(a, b);
      }
    }

    lemma {:induction false} PlusLength(that: List<T>)
      ensures Plus(that).Length() == Length() + that.Length()
    {
      if Cons? {
        tail.PlusLength(that);
      }
    }

    lemma {:induction false} PlusAt(that: List<T>, k: nat)
      requires k < Plus(that).Length()
      ensures k < Length() ==> Plus(that).At(k) == At(k)
      ensures k >= Length() ==> k - Length() < that.Length() && Plus(that).At(k) == that.At(k - Length())
    {
      PlusLength(that);
      if Cons? && k > 0 {
        tail.PlusAt(that, k - 1);
      }
    }

    lemma {:induction false} PlusNil()
      ensures Plus(Nil) == this
    {
      if Cons? {
        tail.PlusNil();
      }
    }
  }
}
