/** `Speekable`: a one-character-lookahead scanner over a character iterator
    that tags each character with the position where it occurs
    (src/script/span.rs). */
module ScriptScanner {
  import opened ScriptSpan

  /** The position of a fresh scanner: row 1, column 1, index 0. */
  function StartPos(file: Symbol): (p: Pos)
    ensures p.row == 1 && p.col == 1 && p.idx == 0 && p.file == file
  {
    Pos(1, 1, 0, file)
  }

  class Speekable {
    /** Everything the wrapped iterator yields, in order. */
    const input: seq<char>
    /** How many characters have been pulled from the wrapped iterator. */
    var pulled: nat
    /** The lookahead: a character pulled but not yet handed out, with the
        position at which it occurs. */
    var peeked: Option<(Pos, char)>
    /** The cursor: the position just after the last pulled character. */
    var pos: Pos
    /** The file name the scanner was created with. */
    ghost const file: Symbol

    /** The cursor sits after the pulled characters, and the lookahead, if
        any, is the last pulled character at the position it occurs at, the
        cursor being one step past it. Rows and columns are 1-based. */
    ghost predicate Valid()
      reads this
    {
      && pulled <= |input|
      && pos == PosAfter(StartPos(file), input[..pulled])
      && pos.idx == pulled && pos.file == file
      && pos.row >= 1 && pos.col >= 1
      && (peeked.Some? ==>
            && 0 < pulled
            && peeked.value == (PosAfter(StartPos(file), input[..pulled - 1]), input[pulled - 1])
            && pos == Advance(peeked.value.0, peeked.value.1)
            && peeked.value.0.row >= 1 && peeked.value.0.col >= 1)
    }

    /** How many characters `next`/`snext` have handed out so far. */
    ghost function Delivered(): nat
      reads this
      requires Valid()
    {
      if peeked.Some? then pulled - 1 else pulled
    }

    /** The character the next `next`/`snext` hands out, with its position,
        or `None` once the input is used up. */
    ghost function Upcoming(): Option<(Pos, char)>
      reads this
      requires Valid()
    {
      var k := Delivered();
      if k < |input| then Some((PosAfter(StartPos(file), input[..k]), input[k])) else None
    }

    /** `Speekable::new`: nothing buffered, cursor at row 1, column 1, index 0. */
    constructor (input: seq<char>, file: Symbol)
      ensures Valid() && this.input == input && this.file == file
      ensures peeked == None && pos == StartPos(file) && pulled == 0
      ensures Delivered() == 0
    {
      this.input := input;
      this.file := file;
      pulled := 0;
      peeked := None;
      pos := StartPos(file);
    }

    /** `inner.next()`: the wrapped iterator yields its next character, or
        `None` (and stays put) when it has none left. */
    method PullInner() returns (c: Option<char>)
      requires pulled <= |input|
      modifies this`pulled
      ensures old(pulled) < |input| ==> c == Some(input[old(pulled)]) && pulled == old(pulled) + 1
      ensures old(pulled) == |input| ==> c == None && pulled == old(pulled)
    {
      if pulled < |input| {
        c := Some(input[pulled]);
        pulled := pulled + 1;
      } else {
        c := None;
      }
    }

    /** `tick`: fill an empty lookahead from the wrapped iterator, tagging the
        character with the cursor and moving the cursor past it. */
    method Tick()
      requires Valid()
      modifies this
      ensures Valid() && Delivered() == old(Delivered()) && Upcoming() == old(Upcoming())
      ensures old(peeked).Some? || old(pulled) == |input| ==>
                peeked == old(peeked) && pos == old(pos) && pulled == old(pulled)
      ensures old(peeked).None? && old(pulled) < |input| ==>
                && pulled == old(pulled) + 1
                && peeked == Some((old(pos), input[old(pulled)]))
                && pos == Advance(old(pos), input[old(pulled)])
      ensures peeked == Upcoming()
    {
      if peeked.None? {
        var c := PullInner();
        if c.Some? {
          var nextPos := Advance(pos, c.value);
          peeked := Some((pos, c.value));
          pos := nextPos;
          assert input[..pulled - 1] == input[..pulled][..pulled - 1];
        }
      }
    }

    /** `speek`: the lookahead character and the position it occurs at,
        without handing it out. */
    method Speek() returns (r: Option<(Pos, char)>)
      requires Valid()
      modifies this
      ensures Valid() && Delivered() == old(Delivered()) && Upcoming() == old(Upcoming())
      ensures r == old(Upcoming()) && r == peeked
      ensures old(peeked).Some? || old(pulled) == |input| ==>
                peeked == old(peeked) && pos == old(pos) && pulled == old(pulled)
      ensures r.Some? ==> pos == Advance(r.value.0, r.value.1)
    {
      Tick();
      r := peeked;
    }

    /** `peek`: the lookahead character, without handing it out. */
    method Peek() returns (r: Option<char>)
      requires Valid()
      modifies this
      ensures Valid() && Delivered() == old(Delivered()) && Upcoming() == old(Upcoming())
      ensures r == if old(Upcoming()).Some? then Some(old(Upcoming()).value.1) else None
      ensures peeked == old(Upcoming())
      ensures old(Upcoming()).Some? ==> pos == Advance(old(Upcoming()).value.0, old(Upcoming()).value.1)
      ensures old(peeked).Some? || old(pulled) == |input| ==>
                peeked == old(peeked) && pos == old(pos) && pulled == old(pulled)
    {
      Tick();
      r := if peeked.Some? then Some(peeked.value.1) else None;
    }

    /** `snext`: hand out the next character with its position, leaving the
        lookahead empty. */
    method SNext() returns (r: Option<(Pos, char)>)
      requires Valid()
      modifies this
      ensures Valid() && peeked.None?
      ensures r == old(Upcoming())
      ensures Delivered() == if r.Some? then old(Delivered()) + 1 else old(Delivered())
      ensures r.Some? ==> pos == Advance(r.value.0, r.value.1)
      ensures r.None? ==> pos == old(pos) && pulled == old(pulled)
    {
      Tick();
      r := peeked;
      peeked := None;
    }

    /** `last_pos`: the cursor, just after the last character pulled from
        the wrapped iterator. */
    function LastPos(): (p: Pos)
      reads this
      requires Valid()
      ensures p == PosAfter(StartPos(file), input[..pulled])
      ensures p.idx == pulled && p.file == file
    {
      pos
    }

    /** `Iterator::next`: hand out the next character, leaving the lookahead
        empty. */
    method Next() returns (r: Option<char>)
      requires Valid()
      modifies this
      ensures Valid() && peeked.None?
      ensures r == if old(Upcoming()).Some? then Some(old(Upcoming()).value.1) else None
      ensures Delivered() == if r.Some? then old(Delivered()) + 1 else old(Delivered())
      ensures r.Some? ==> pos == Advance(old(Upcoming()).value.0, r.value)
      ensures r.None? ==> pos == old(pos) && pulled == old(pulled)
    {
      Tick();
      r := if peeked.Some? then Some(peeked.value.1) else None;
      peeked := None;
    }
  }

  /** Peeking twice shows the same character, and `next` then hands out
      exactly that character; `speek` and `snext` agree the same way. */
  method PeekThenNext(s: Speekable)
    returns (a: Option<char>, b: Option<char>, c: Option<char>, p: Option<(Pos, char)>, q: Option<(Pos, char)>)
    requires s.Valid()
    modifies s
    ensures a == b == c
    ensures p == q
    ensures c.Some? <==> old(s.Delivered()) < |s.input|
    ensures s.Valid()
  {
    a := s.Peek();
    b := s.Peek();
    c := s.Next();
    p := s.Speek();
    q := s.SNext();
  }

  /** The positions `snext` reports for successive characters strictly
      increase, and the character at index `k` is reported at the position
      reached by consuming the first `k` characters. */
  method SNextTwice(s: Speekable) returns (first: Option<(Pos, char)>, second: Option<(Pos, char)>)
    requires s.Valid()
    modifies s
    ensures s.Valid()
    ensures first.Some? <==> old(s.Delivered()) < |s.input|
    ensures second.Some? <==> old(s.Delivered()) + 1 < |s.input|
    ensures first.Some? && second.Some? ==> Lt(first.value.0, second.value.0)
    ensures second.Some? ==> second.value.0 == Advance(first.value.0, first.value.1)
  {
    ghost var k := s.Delivered();
    first := s.SNext();
    second := s.SNext();
    if second.Some? {
      PrefixPositionsIncrease(StartPos(s.file), s.input, k, k + 1);
      assert s.input[..k + 1] == s.input[..k] + [s.input[k]];
    }
  }
}
