/** How much output a compressor can need: a literal run costs at most one byte in 32 and one more, and
    every match saves the byte that the run before it may have cost. */
module Room {

  /** Room that is always enough: literal runs cost at most one byte in 32, and one at the end. */
  function Bound(n: nat): nat {
    n + n / 32 + 1
  }

  lemma BoundLong(x: nat, done: nat, n: nat, total: nat)
    requires 32 * x <= 33 * done && 64 <= n && done + n <= total
    ensures x + n + 2 <= Bound(total)
    ensures 32 * (x + n + 2) <= 33 * (done + n)
  {
  }

  lemma BoundLast(x: nat, done: nat, n: nat)
    requires 32 * x <= 33 * done
    ensures x + n + (if n == 0 then 0 else if n < 32 then 1 else 2) <= Bound(done + n)
  {
  }

  lemma FlushedRoom(op: nat, ii: nat, ip: nat, op': nat)
    requires 32 * op <= 33 * ii && ii <= ip && op' <= op + Bound(ip - ii)
    ensures 32 * op' <= 33 * ip + 32
  {
  }

  lemma RunRoom(op: nat, ii: nat, ip: nat, n: nat)
    requires 32 * op <= 33 * ii && ii <= ip <= n
    ensures op + Bound(ip - ii) <= Bound(n)
  {
  }

  /** Literals folded into the match before them cost nothing extra. */
  lemma FoldRoom(op: nat, ii: nat, k: nat, n: nat)
    requires 32 * op <= 33 * ii && ii + k <= n
    ensures op + k <= Bound(n)
    ensures 32 * (op + k) <= 33 * (ii + k)
  {
  }
}
