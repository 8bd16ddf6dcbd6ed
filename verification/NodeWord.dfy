/** The word of a tree node that packs its parent's address with its colour in the lowest bit. */
module NodeWord {
  import opened Words

  /** Bitwise or: what both have is counted once. */
  function Or(x: nat, y: nat): nat {
    AndBelow(x, y);
    x + y - And(x, y)
  }

  function Pack(parent: nat, color: nat): nat {
    Or(parent, color)
  }

  function ParentOf(word: nat): nat {
    And(word, Not(1))
  }

  function ColorOf(word: nat): nat {
    And(word, 1)
  }

  function WithParent(word: nat, parent: nat): nat {
    Or(parent, And(word, 1))
  }

  function WithColor(word: nat, color: nat): nat {
    Or(And(word, Not(1)), color)
  }

  lemma LowBit(word: nat)
    requires word < WORD
    ensures ColorOf(word) == word % 2 && ParentOf(word) == word - word % 2
  {
    AndLow(word, 1);
    assert Pow2(1) == 2 * Pow2(0);
    MaskRoundsDown(word, 2);
  }

  lemma OrEven(parent: nat, color: nat)
    requires parent % 2 == 0 && color < 2
    ensures Or(parent, color) == parent + color
  {
    AndStep(parent, color);
    assert And(parent / 2, 0) == 0;
  }

  /** Node addresses are even, so both parts can be read back ... */
  lemma {:induction false} PackReadBack(parent: nat, color: nat)
    requires parent < WORD && parent % 2 == 0 && color < 2
    ensures Pack(parent, color) < WORD
    ensures ParentOf(Pack(parent, color)) == parent && ColorOf(Pack(parent, color)) == color
  {
    OrEven(parent, color);
    EvenBelow(parent);
    LowBit(parent + color);
    hide Or, ParentOf, ColorOf;
    assert (parent + color) % 2 == color;
  }

  /** ... and setting one part leaves the other. */
  lemma {:induction false} SetOnePart(word: nat, parent: nat, color: nat)
    requires word < WORD && parent < WORD && parent % 2 == 0 && color < 2
    ensures WithParent(word, parent) == Pack(parent, ColorOf(word))
    ensures WithColor(word, color) == Pack(ParentOf(word), color)
    ensures ColorOf(WithParent(word, parent)) == ColorOf(word) && ParentOf(WithParent(word, parent)) == parent
    ensures ParentOf(WithColor(word, color)) == ParentOf(word) && ColorOf(WithColor(word, color)) == color
  {
    LowBit(word);
    hide Or, And;
    PackReadBack(parent, ColorOf(word));
    PackReadBack(ParentOf(word), color);
  }

  lemma EvenBelow(x: nat)
    requires x < WORD && x % 2 == 0
    ensures x + 1 < WORD
  {}
}
