/** `generateUniqueId` of the dashboard sidebar: it fills the layout of a
    version-4 UUID (RFC 4122, section 4.4) by replacing each 'x' and 'y' of a
    template, left to right, with one random hexadecimal digit. The random
    source is a parameter: the sequence of 4-bit values it yields in turn. */
module UniqueId {

  /** One draw of `Math.random() * 16 | 0`. */
  type Nibble = r: int | 0 <= r < 16

  /** "xxxxxxxx-xxxx-4xxx-yxxx-xxxxxxxxxxxx", written group by group. */
  const Template: string := Group1 + Group2 + Group3 + Group4 + Group5

  const Group1: string := "xxxxxxxx-"
  const Group2: string := "xxxx-"
  const Group3: string := "4xxx-"
  const Group4: string := "yxxx-"
  const Group5: string := "xxxxxxxxxxxx"

  predicate IsSlot(c: char) { c == 'x' || c == 'y' }

  /** The number of characters of `t` that consume a draw. */
  function Slots(t: string): nat {
    multiset(t)['x'] + multiset(t)['y']
  }

  /** The value written for a slot: the draw itself for 'x'; for 'y'
      `r & 0x3 | 0x8`, which sets the variant bits to 10 (RFC 4122,
      section 4.1.1). */
  function SlotValue(c: char, r: Nibble): (v: Nibble)
    requires IsSlot(c)
    ensures c == 'y' ==> v == r % 4 + 8
  {
    if c == 'x' then r else YBits(r)
  }

  function YBits(r: Nibble): (v: Nibble)
    ensures v == r % 4 + 8
  {
    var b := (r as bv8 & 0x3) | 0x8;
    assert b == (r % 4 + 8) as bv8 by { YBitsTable(r); }
    b as int
  }

  lemma YBitsTable(r: Nibble)
    ensures (r as bv8 & 0x3) | 0x8 == (r % 4 + 8) as bv8
  {
    if r < 8 {
      if r < 4 {
        if r < 2 { if r == 0 {} else {} } else { if r == 2 {} else {} }
      } else {
        if r < 6 { if r == 4 {} else {} } else { if r == 6 {} else {} }
      }
    } else {
      if r < 12 {
        if r < 10 { if r == 8 {} else {} } else { if r == 10 {} else {} }
      } else {
        if r < 14 { if r == 12 {} else {} } else { if r == 14 {} else {} }
      }
    }
  }

  predicate IsLowerHex(c: char) { '0' <= c <= '9' || 'a' <= c <= 'f' }

  /** `v.toString(16)` for a value below sixteen: one lower-case hex digit. */
  function HexDigit(v: Nibble): (c: char)
    ensures IsLowerHex(c) && HexValue(c) == v
  {
    if v < 10 then (48 + v) as char else (87 + v) as char
  }

  /** The value of a lower-case hex digit. */
  function HexValue(c: char): (v: Nibble)
    requires IsLowerHex(c)
  {
    if c <= '9' then c as int - 48 else c as int - 87
  }

  /** The `replace` over the template: each slot takes the next draw. */
  function Fill(t: string, rs: seq<Nibble>): (r: string)
    requires |rs| == Slots(t)
    ensures |r| == |t|
  {
    if t == [] then []
    else
      assert t == [t[0]] + t[1..];
      if IsSlot(t[0]) then [HexDigit(SlotValue(t[0], rs[0]))] + Fill(t[1..], rs[1..])
      else [t[0]] + Fill(t[1..], rs)
  }

  /** The character `d` may stand at a place where the template has `c`: a
      fixed character stays, an 'x' becomes any hex digit, a 'y' one of
      '8', '9', 'a', 'b'. */
  predicate FitsSlot(c: char, d: char) {
    if c == 'x' then IsLowerHex(d)
    else if c == 'y' then d == '8' || d == '9' || d == 'a' || d == 'b'
    else d == c
  }

  predicate Fits(t: string, s: string) {
    |s| == |t| && forall i :: 0 <= i < |t| ==> FitsSlot(t[i], s[i])
  }

  /** The shape of a version-4 UUID as this template writes it. */
  predicate IsV4Uuid(s: string) {
    Fits(Template, s)
  }

  /** Counting slots one character at a time. */
  lemma SlotsCons(c: char, t: string)
    ensures Slots([c] + t) == (if IsSlot(c) then 1 else 0) + Slots(t)
  {
    assert multiset([c] + t) == multiset{c} + multiset(t);
  }

  /** Position by position: a fixed character is copied; a slot holds the
      hex digit of the draw numbered by the slots before it. */
  lemma {:induction false} FillAt(t: string, rs: seq<Nibble>, i: nat)
    requires |rs| == Slots(t) && i < |t|
    ensures IsSlot(t[i]) ==> Slots(t[..i]) < |rs|
    ensures Fill(t, rs)[i] == if IsSlot(t[i]) then HexDigit(SlotValue(t[i], rs[Slots(t[..i])])) else t[i]
  {
    FillStep(t, rs);
    if i == 0 {
      assert t[..i] == [];
    } else {
      SlotsPrefixStep(t, i);
      if IsSlot(t[0]) {
        FillAt(t[1..], rs[1..], i - 1);
      } else {
        FillAt(t[1..], rs, i - 1);
      }
    }
  }

  /** Counting the slots of a non-empty prefix one character at a time. */
  lemma SlotsPrefixStep(t: string, i: nat)
    requires 0 < i <= |t|
    ensures Slots(t[..i]) == (if IsSlot(t[0]) then 1 else 0) + Slots(t[1..][..i - 1])
  {
    assert t[..i] == [t[0]] + t[1..][..i - 1];
    SlotsCons(t[0], t[1..][..i - 1]);
  }

  /** Every character the filler writes fits its place in the template. */
  lemma {:induction false} FillFits(t: string, rs: seq<Nibble>)
    requires |rs| == Slots(t)
    ensures Fits(t, Fill(t, rs))
  {
    forall i | 0 <= i < |t|
      ensures FitsSlot(t[i], Fill(t, rs)[i])
    {
      FillAt(t, rs, i);
    }
  }

  /** Reads back, from a string that fits the template, draws that would
      produce it. */
  function Unfill(t: string, s: string): (rs: seq<Nibble>)
    requires Fits(t, s)
    ensures |rs| == Slots(t)
  {
    if t == [] then []
    else
      FitsTail(t, s);
      assert t == [t[0]] + t[1..];
      SlotsCons(t[0], t[1..]);
      if IsSlot(t[0]) then [UnfillDigit(t[0], s[0])] + Unfill(t[1..], s[1..])
      else Unfill(t[1..], s[1..])
  }

  /** The draw that makes a slot `c` show the digit `d`. */
  function UnfillDigit(c: char, d: char): (r: Nibble)
    requires IsSlot(c) && FitsSlot(c, d)
    ensures HexDigit(SlotValue(c, r)) == d
  {
    if c == 'x' then HexValue(d) else HexValue(d) - 8
  }

  /** Every string that fits the template is written by the filler for some
      sequence of draws. */
  lemma {:induction false} FillUnfill(t: string, s: string)
    requires Fits(t, s)
    ensures Fill(t, Unfill(t, s)) == s
  {
    if t != [] {
      FitsTail(t, s);
      var rs := Unfill(t, s);
      FillUnfill(t[1..], s[1..]);
      FillStep(t, rs);
      assert Fill(t, rs)[1..] == s[1..];
      assert s == [s[0]] + s[1..];
    }
  }

  /** One step of the filler: the first character, then the rest with the
      draws left over. */
  lemma FillStep(t: string, rs: seq<Nibble>)
    requires |rs| == Slots(t) && t != []
    ensures IsSlot(t[0]) ==> |rs| > 0 && |rs[1..]| == Slots(t[1..])
    ensures IsSlot(t[0]) ==> Fill(t, rs) == [HexDigit(SlotValue(t[0], rs[0]))] + Fill(t[1..], rs[1..])
    ensures !IsSlot(t[0]) ==> |rs| == Slots(t[1..]) && Fill(t, rs) == [t[0]] + Fill(t[1..], rs)
  {
    assert t == [t[0]] + t[1..];
    SlotsCons(t[0], t[1..]);
  }

  /** A fit splits into the fit of the first place and the fit of the rest. */
  lemma FitsTail(t: string, s: string)
    requires Fits(t, s) && t != []
    ensures FitsSlot(t[0], s[0]) && Fits(t[1..], s[1..])
  {
    forall i | 0 <= i < |t[1..]|
      ensures FitsSlot(t[1..][i], s[1..][i])
    {
      assert FitsSlot(t[i + 1], s[i + 1]);
    }
  }

  /** The template has 31 slots, so `generateUniqueId` draws 31 times. */
  lemma TemplateSlots()
    ensures Slots(Template) == 31 && |Template| == 36
  {
    GroupSlots1();
    GroupSlots2();
    GroupSlots5();
    SlotsAppend(Group1, Group2);
    SlotsAppend(Group1 + Group2, Group3);
    SlotsAppend(Group1 + Group2 + Group3, Group4);
    SlotsAppend(Group1 + Group2 + Group3 + Group4, Group5);
  }

  lemma GroupSlots1()
    ensures Slots(Group1) == 8 && Slots(Group2) == 4
  {
  }

  lemma GroupSlots2()
    ensures Slots(Group3) == 3 && Slots(Group4) == 4
  {
  }

  lemma GroupSlots5()
    ensures Slots(Group5) == 12
  {
  }

  /** Slots of a concatenation add up. */
  lemma SlotsAppend(a: string, b: string)
    ensures Slots(a + b) == Slots(a) + Slots(b)
  {
    assert multiset(a + b) == multiset(a) + multiset(b);
  }

  /** `generateUniqueId` */
  function GenerateUniqueId(rs: seq<Nibble>): (id: string)
    requires |rs| == 31
    ensures |id| == 36
  {
    TemplateSlots();
    Fill(Template, rs)
  }

  /** Every generated id has the version-4 layout. */
  lemma GeneratedIdIsV4(rs: seq<Nibble>)
    requires |rs| == 31
    ensures IsV4Uuid(GenerateUniqueId(rs))
  {
    TemplateSlots();
    FillFits(Template, rs);
  }

  /** What the layout fixes: hyphens at 8, 13, 18 and 23, the version digit
      '4' at 14 (RFC 4122, section 4.1.3), a variant digit at 19, and
      lower-case hex digits at every 'x'. */
  lemma V4Layout(id: string)
    requires IsV4Uuid(id)
    ensures |id| == 36
    ensures id[8] == '-' && id[13] == '-' && id[18] == '-' && id[23] == '-'
    ensures id[14] == '4'
    ensures id[19] == '8' || id[19] == '9' || id[19] == 'a' || id[19] == 'b'
    ensures forall i :: 0 <= i < 36 && Template[i] == 'x' ==> IsLowerHex(id[i])
  {
    assert FitsSlot(Template[8], id[8]) && FitsSlot(Template[13], id[13]);
    assert FitsSlot(Template[18], id[18]) && FitsSlot(Template[23], id[23]);
    assert FitsSlot(Template[14], id[14]) && FitsSlot(Template[19], id[19]);
  }

  /** Each 'x' of the template receives the hex digit of its own draw. */
  lemma GeneratedDigitAt(rs: seq<Nibble>, i: nat)
    requires |rs| == 31 && i < 36 && Template[i] == 'x'
    ensures Slots(Template[..i]) < 31
    ensures GenerateUniqueId(rs)[i] == HexDigit(rs[Slots(Template[..i])])
  {
    TemplateSlots();
    FillAt(Template, rs, i);
  }

  /** Conversely, every string of that layout is generated by some 31 draws. */
  lemma EveryV4UuidIsGenerated(s: string)
    requires IsV4Uuid(s)
    ensures exists rs :: |rs| == 31 && GenerateUniqueId(rs) == s
  {
    TemplateSlots();
    var rs := Unfill(Template, s);
    FillUnfill(Template, s);
    assert GenerateUniqueId(rs) == s;
  }
}
