/** Moving the editor focus to the next or previous block, wrapping around. */
module Focus {

  /** JavaScript's `a % b`: the remainder of division truncated toward zero,
      so its sign follows the dividend. */
  function JsRemainder(a: int, b: int): (r: int)
    requires b != 0
    ensures a >= 0 ==> 0 <= r < (if b > 0 then b else -b)
    ensures a < 0 ==> -(if b > 0 then b else -b) < r <= 0
    ensures exists q :: a == q * b + r
  {
    var m := if b > 0 then b else -b;
    if a >= 0 then
      assert a == (a / m) * m + a % m;
      assert a == (if b > 0 then a / m else -(a / m)) * b + a % m;
      a % m
    else
      assert -a == (-a / m) * m + (-a) % m;
      assert a == (if b > 0 then -(-a / m) else -a / m) * b + -((-a) % m);
      -((-a) % m)
  }

  /** `onFocusNext(idx)`: `(idx + 1) % blockOrder.length`. */
  function FocusNext(idx: int, len: int): (r: int)
    requires 0 <= idx < len
    ensures 0 <= r < len
    ensures r == (if idx == len - 1 then 0 else idx + 1)
  {
    JsRemainder(idx + 1, len)
  }

  /** `onFocusPrevious(idx)`: `(idx - 1 + blockOrder.length) % blockOrder.length`. */
  function FocusPrevious(idx: int, len: int): (r: int)
    requires 0 <= idx < len
    ensures 0 <= r < len
    ensures r == (if idx == 0 then len - 1 else idx - 1)
  {
    JsRemainder(idx - 1 + len, len)
  }

  /** Next and previous undo each other. */
  lemma NextPreviousInverse(idx: int, len: int)
    requires 0 <= idx < len
    ensures FocusPrevious(FocusNext(idx, len), len) == idx
    ensures FocusNext(FocusPrevious(idx, len), len) == idx
  {
  }
}
