/** Integers as wide as the source keeps them, and without bound. */
module Words {

  const WORD := 0x1_0000_0000_0000_0000

  /** The value of a 64-bit integer that should hold `x`. */
  function Wrap(x: int): (r: int)
    ensures -0x8000_0000_0000_0000 <= r < 0x8000_0000_0000_0000
  {
    var r := x % WORD;
    if r >= 0x8000_0000_0000_0000 then r - WORD else r
  }

  /** `q` words lie between `x` and `y`. */
  ghost predicate Apart(x: int, y: int, q: int)
  {
    x == y + q * WORD
  }

  lemma WrapApart(x: int) returns (q: int)
    ensures Apart(Wrap(x), x, q)
  {
    q := -(x / WORD) - (if x % WORD >= 0x8000_0000_0000_0000 then 1 else 0);
  }

  lemma ApartWraps(x: int, y: int, q: int)
    requires Apart(x, y, q)
    ensures Wrap(x) == Wrap(y)
  {
  }

  lemma ApartProduct(a: int, b: int, a': int, b': int, p: int, q: int)
    requires Apart(a', a, p) && Apart(b', b, q)
    ensures Apart(a' * b', a * b, a * q + p * b + p * q * WORD)
  {
  }

  /** One 64-bit update of an entry, with every operand already wrapped, is the unbounded update wrapped. */
  lemma UpdateWraps(x: int, a: int, b: int, sign: int)
    requires sign == 1 || sign == -1
    ensures Wrap(Wrap(x) + sign * Wrap(Wrap(a) * Wrap(b))) == Wrap(x + sign * (a * b))
  {
    var p := WrapApart(x);
    var q := WrapApart(a);
    var r := WrapApart(b);
    ApartProduct(a, b, Wrap(a), Wrap(b), q, r);
    var m := a * r + q * b + q * r * WORD;
    var n := WrapApart(Wrap(a) * Wrap(b));
    ApartWraps(Wrap(x) + sign * Wrap(Wrap(a) * Wrap(b)), x + sign * (a * b), p + sign * (m + n));
  }

  /** How wide an integer is. */
  datatype Width = Unlimited | Bits64

  function Reduce(w: Width, x: int): int
  {
    match w
    case Unlimited => x
    case Bits64 => Wrap(x)
  }

  /** `x + k * a * b`, computed by integers of a width. */
  function Update(w: Width, x: int, a: int, b: int, k: int): int
  {
    Reduce(w, x + k * Reduce(w, a * b))
  }

  lemma UpdateReduces(w: Width, x: int, a: int, b: int, k: int)
    requires k == 1 || k == -1
    ensures Update(w, Reduce(w, x), Reduce(w, a), Reduce(w, b), k) == Reduce(w, x + k * (a * b))
  {
    if w == Bits64 {
      UpdateWraps(x, a, b, k);
    }
  }

  lemma UpdateUnlimited(x: int, a: int, b: int, k: int)
    ensures Update(Unlimited, x, a, b, k) == x + k * (a * b)
  {
  }

  lemma ReduceSmall(w: Width)
    ensures Reduce(w, 0) == 0 && Reduce(w, 1) == 1
  {
  }

  lemma ReduceTwice(w: Width, x: int)
    ensures Reduce(w, Reduce(w, x)) == Reduce(w, x)
  {
  }

  /** An update by nothing changes nothing. */
  lemma UpdateNone(w: Width, x: int, a: int, b: int, k: int)
    requires Reduce(w, x) == x && (a == 0 || b == 0)
    ensures Update(w, x, a, b, k) == x
  {
  }
}
