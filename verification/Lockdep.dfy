/**
 The lock-order checker of `kernel/sync/lockdep.c`: the classes of the locks a thread has asked for and not yet
 reported released, kept as a stack in an array of sixteen slots.
 */
module Lockdep {
  const MAX_HELD: nat := 16
  const WORD: nat := 0x1_0000_0000

  const OK: int := 0
  const EPERM: int := -1
  const EINVAL: int := -22
  const EDEADLK: int := -35
  const EOVERFLOW: int := -75

  /** A class id is a 32-bit number; 0 is not a class. */
  type ClassId = c: nat | c < WORD

  /** Each class was asked for after all smaller ones. */
  predicate Ordered(held: seq<ClassId>) {
    && |held| <= MAX_HELD
    && (forall i :: 0 <= i < |held| ==> held[i] > 0)
    && (forall i, j :: 0 <= i < j < |held| ==> held[i] < held[j])
  }

  /** The answer to a thread that wants a lock of class `c`. */
  function Ask(held: seq<ClassId>, c: ClassId): (rc: int) {
    if c == 0 then EINVAL
    else if |held| >= MAX_HELD then EOVERFLOW
    else if c in held || (held != [] && c < held[|held| - 1]) then EDEADLK
    else OK
  }

  /** The answer to a thread that says it has released a lock of class `c`. */
  function Tell(held: seq<ClassId>, c: ClassId): (rc: int) {
    if c == 0 then EINVAL
    else if held == [] then EPERM
    else if held[|held| - 1] != c then EDEADLK
    else OK
  }

  /** The stack after the answer: only OK changes it. */
  function Asked(held: seq<ClassId>, c: ClassId): (q: seq<ClassId>) {
    if Ask(held, c) == OK then held + [c] else held
  }

  function Told(held: seq<ClassId>, c: ClassId): (q: seq<ClassId>) {
    if Tell(held, c) == OK then held[..|held| - 1] else held
  }

  /** On an ordered stack OK is the answer exactly when there is room and the class is above every one held. */
  lemma AskExact(held: seq<ClassId>, c: ClassId)
    requires Ordered(held)
    ensures Ask(held, c) == OK <==> c > 0 && |held| < MAX_HELD && forall h :: h in held ==> h < c
    ensures Ordered(Asked(held, c))
  {
    if held != [] {
      assert held[|held| - 1] in held;
    }
  }

  /** The stack stays ordered, and an accepted request followed by its report leaves it as it was. */
  lemma AskThenTell(held: seq<ClassId>, c: ClassId)
    requires Ordered(held)
    ensures Ordered(Told(held, c))
    ensures Ask(held, c) == OK ==> Tell(Asked(held, c), c) == OK && Told(Asked(held, c), c) == held
  {
    if Ask(held, c) == OK {
      assert (held + [c])[..|held|] == held;
    }
  }

  class Checker {
    const heldClass: array<ClassId>
    var depth: nat
    var violations: nat

    ghost predicate Valid()
      reads this, heldClass
    {
      && heldClass.Length == MAX_HELD && depth <= MAX_HELD && violations < WORD
      && (forall i :: depth <= i < MAX_HELD ==> heldClass[i] == 0)
    }

    /** The stack: the used part of the array. */
    ghost function Held(): (q: seq<ClassId>)
      requires Valid()
      reads this, heldClass
    {
      heldClass[..depth]
    }

    constructor ()
      ensures Valid() && Held() == [] && violations == 0 && fresh(heldClass)
    {
      heldClass := new ClassId[MAX_HELD](_ => 0);
      depth, violations := 0, 0;
    }

    /** `mcs_lockdep_is_held`. */
    method IsHeld(c: ClassId) returns (held: bool)
      requires Valid()
      ensures held <==> c != 0 && c in Held()
    {
      if c == 0 {
        return false;
      }
      for i := 0 to depth
        invariant c !in heldClass[..i]
      {
        if heldClass[i] == c {
          assert c in heldClass[..depth] by { assert heldClass[..depth][i] == c; }
          return true;
        }
      }
      return false;
    }

    /** `mcs_lockdep_before_acquire`; every refusal of a real class is counted, in a 32-bit word. */
    method BeforeAcquire(c: ClassId) returns (rc: int)
      requires Valid()
      modifies this`depth, this`violations, heldClass
      ensures Valid()
      ensures rc == Ask(old(Held()), c) && Held() == Asked(old(Held()), c)
      ensures violations == (old(violations) + if rc in {EOVERFLOW, EDEADLK} then 1 else 0) % WORD
    {
      if c == 0 {
        return EINVAL;
      }
      if depth >= MAX_HELD {
        violations := (violations + 1) % WORD;
        return EOVERFLOW;
      }
      for i := 0 to depth
        invariant c !in heldClass[..i]
      {
        if heldClass[i] == c {
          assert c in heldClass[..depth] by { assert heldClass[..depth][i] == c; }
          violations := (violations + 1) % WORD;
          return EDEADLK;
        }
      }
      if depth > 0 {
        var top := heldClass[depth - 1];
        if c < top {
          violations := (violations + 1) % WORD;
          return EDEADLK;
        }
      }
      heldClass[depth] := c;
      depth := depth + 1;
      rc := OK;
    }

    /** `mcs_lockdep_after_release`. */
    method AfterRelease(c: ClassId) returns (rc: int)
      requires Valid()
      modifies this`depth, this`violations, heldClass
      ensures Valid()
      ensures rc == Tell(old(Held()), c) && Held() == Told(old(Held()), c)
      ensures violations == (old(violations) + if rc in {EPERM, EDEADLK} then 1 else 0) % WORD
    {
      if c == 0 {
        return EINVAL;
      }
      if depth == 0 {
        violations := (violations + 1) % WORD;
        return EPERM;
      }
      var index := depth - 1;
      if heldClass[index] != c {
        violations := (violations + 1) % WORD;
        return EDEADLK;
      }
      heldClass[index] := 0;
      depth := depth - 1;
      rc := OK;
    }
  }
}
