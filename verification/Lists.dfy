/** Inductive lists that grow at their end. */
module Lists {
  datatype List<T> = Nil | Cons(head: T, tail: List<T>)

  function Snoc<T>(l: List<T>, x: T): (r: List<T>)
    ensures r.Cons?
  {
    match l
    case Nil => Cons(x, Nil)
    case Cons(h, t) => Cons(h, Snoc(t, x))
  }

  function Length<T>(l: List<T>): nat {
    match l
    case Nil => 0
    case Cons(_, t) => 1 + Length(t)
  }

  function Last<T>(l: List<T>): T
    requires l.Cons?
  {
    if l.tail.Nil? then l.head else Last(l.tail)
  }

  function Front<T>(l: List<T>): List<T>
    requires l.Cons?
  {
    if l.tail.Nil? then Nil else Cons(l.head, Front(l.tail))
  }

  lemma {:induction false} FrontAndLast<T>(l: List<T>)
    requires l.Cons?
    ensures l == Snoc(Front(l), Last(l))
  {
    if l.tail.Cons? {
      FrontAndLast(l.tail);
    }
  }

  lemma {:induction false} LengthSnoc<T>(l: List<T>, x: T)
    ensures Length(Snoc(l, x)) == Length(l) + 1 && Last(Snoc(l, x)) == x
  {
    match l
    case Nil =>
    case Cons(_, t) => LengthSnoc(t, x);
  }
}
