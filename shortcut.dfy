/**
 * Keyboard shortcut formatting (src/menu/shortcut.rs).
 *
 * The accessibility API reports a shortcut as a key character and a
 * modifier mask whose layout is its own: bit 0x1 Shift, 0x2 Option,
 * 0x4 Control, and 0x8 "no Command".  Command is implied unless 0x8 is set.
 */
module Shortcut {
  import opened Wrappers
  import opened Strings

  /** Rust's `i64`. */
  newtype int64 = x: int | -0x8000_0000_0000_0000 <= x < 0x8000_0000_0000_0000

  const ShiftBit: bv64 := 0x1
  const OptionBit: bv64 := 0x2
  const ControlBit: bv64 := 0x4
  const NoCommandBit: bv64 := 0x8

  const ControlGlyph: char := '⌃'
  const OptionGlyph: char := '⌥'
  const ShiftGlyph: char := '⇧'
  const CommandGlyph: char := '⌘'

  /** The two's-complement bit pattern of an `i64`, which is what `&` tests. */
  function Bits(m: int64): bv64
  {
    if m >= 0 then m as int as bv64 else (m as int + 0x1_0000_0000_0000_0000) as bv64
  }

  predicate HasBit(m: int64, bit: bv64)
  {
    Bits(m) & bit != 0
  }

  /** Position of a modifier glyph in the fixed rendering order. */
  function GlyphRank(c: char): int
  {
    if c == ControlGlyph then 0
    else if c == OptionGlyph then 1
    else if c == ShiftGlyph then 2
    else if c == CommandGlyph then 3
    else -1
  }

  /** `g` is a run of distinct modifier glyphs in rendering order. */
  predicate InGlyphOrder(g: string)
  {
    (forall i :: 0 <= i < |g| ==> GlyphRank(g[i]) >= 0)
    && forall i, j :: 0 <= i < j < |g| ==> GlyphRank(g[i]) < GlyphRank(g[j])
  }

  function GlyphIf(b: bool, glyph: char): string
  {
    if b then [glyph] else ""
  }

  /** Every glyph of `g` ranks after `k`. */
  predicate RanksAbove(g: string, k: int)
  {
    forall i :: 0 <= i < |g| ==> GlyphRank(g[i]) > k
  }

  /** Putting an optional glyph in front of a run of later-ranked glyphs keeps the order. */
  lemma PrependGlyph(b: bool, c: char, rest: string)
    requires GlyphRank(c) >= 0 && InGlyphOrder(rest)
    requires RanksAbove(rest, GlyphRank(c))
    ensures InGlyphOrder(GlyphIf(b, c) + rest)
    ensures RanksAbove(GlyphIf(b, c) + rest, GlyphRank(c) - 1)
  {
  }

  /** A glyph ranked no later than every glyph of `g` is not in `g`. */
  lemma NotIn(g: string, c: char)
    requires RanksAbove(g, GlyphRank(c))
    ensures c !in g
  {
    forall i | 0 <= i < |g| ensures g[i] != c {
      assert GlyphRank(g[i]) > GlyphRank(c);
    }
  }

  /** Membership in an optional glyph followed by a run. */
  lemma InPrepend(b: bool, c: char, rest: string, x: char)
    ensures x in GlyphIf(b, c) + rest <==> (b && x == c) || x in rest
  {
    if b { assert (GlyphIf(b, c) + rest)[0] == c; }
    if x in rest {
      var i :| 0 <= i < |rest| && rest[i] == x;
      assert (GlyphIf(b, c) + rest)[|GlyphIf(b, c)| + i] == x;
    }
  }

  /** The modifier glyphs for the given modifier states, in rendering order. */
  function Glyphs(control: bool, option: bool, shift: bool, command: bool): (g: string)
    ensures |g| <= 4
    ensures InGlyphOrder(g)
    ensures ControlGlyph in g <==> control
    ensures OptionGlyph in g <==> option
    ensures ShiftGlyph in g <==> shift
    ensures CommandGlyph in g <==> command
  {
    var g4 := GlyphIf(command, CommandGlyph);
    var g3 := GlyphIf(shift, ShiftGlyph) + g4;
    PrependGlyph(shift, ShiftGlyph, g4);
    var g2 := GlyphIf(option, OptionGlyph) + g3;
    PrependGlyph(option, OptionGlyph, g3);
    var g1 := GlyphIf(control, ControlGlyph) + g2;
    PrependGlyph(control, ControlGlyph, g2);
    NotIn(g2, ControlGlyph);
    NotIn(g3, OptionGlyph);
    NotIn(g4, ShiftGlyph);
    InPrepend(control, ControlGlyph, g2, ControlGlyph);
    InPrepend(control, ControlGlyph, g2, OptionGlyph);
    InPrepend(control, ControlGlyph, g2, ShiftGlyph);
    InPrepend(control, ControlGlyph, g2, CommandGlyph);
    InPrepend(option, OptionGlyph, g3, OptionGlyph);
    InPrepend(option, OptionGlyph, g3, ShiftGlyph);
    InPrepend(option, OptionGlyph, g3, CommandGlyph);
    InPrepend(shift, ShiftGlyph, g4, ShiftGlyph);
    InPrepend(shift, ShiftGlyph, g4, CommandGlyph);
    g1
  }

  /** Render the shortcut, or `None` when the key character is absent or blank. */
  function FormatShortcut(cmdChar: Option<string>, modifiers: Option<int64>): (r: Option<string>)
    ensures r.None? <==> cmdChar.None? || Trim(cmdChar.value) == ""
    ensures r.Some? ==>
      var key := Trim(cmdChar.value);
      var mods := modifiers.GetOr(0);
      && |key| <= |r.value| <= |key| + 4
      && r.value[|r.value| - |key|..] == key
      && var glyphs := r.value[..|r.value| - |key|];
         && InGlyphOrder(glyphs)
         && (ControlGlyph in glyphs <==> HasBit(mods, ControlBit))
         && (OptionGlyph in glyphs <==> HasBit(mods, OptionBit))
         && (ShiftGlyph in glyphs <==> HasBit(mods, ShiftBit))
         && (CommandGlyph in glyphs <==> !HasBit(mods, NoCommandBit))
  {
    match cmdChar
    case None => None
    case Some(raw) =>
      var key := Trim(raw);
      if key == "" then None
      else
        var mods := modifiers.GetOr(0);
        var glyphs := Glyphs(HasBit(mods, ControlBit), HasBit(mods, OptionBit),
                             HasBit(mods, ShiftBit), !HasBit(mods, NoCommandBit));
        assert (glyphs + key)[..|glyphs + key| - |key|] == glyphs;
        Some(glyphs + key)
  }

  /** Only the four low bits of the mask matter. */
  lemma OnlyLowBitsMatter(c: Option<string>, m1: int64, m2: int64)
    requires Bits(m1) & 0xF == Bits(m2) & 0xF
    ensures FormatShortcut(c, Some(m1)) == FormatShortcut(c, Some(m2))
  {
    assert Bits(m1) & 0x1 == Bits(m1) & 0xF & 0x1 && Bits(m2) & 0x1 == Bits(m2) & 0xF & 0x1;
    assert Bits(m1) & 0x2 == Bits(m1) & 0xF & 0x2 && Bits(m2) & 0x2 == Bits(m2) & 0xF & 0x2;
    assert Bits(m1) & 0x4 == Bits(m1) & 0xF & 0x4 && Bits(m2) & 0x4 == Bits(m2) & 0xF & 0x4;
    assert Bits(m1) & 0x8 == Bits(m1) & 0xF & 0x8 && Bits(m2) & 0x8 == Bits(m2) & 0xF & 0x8;
  }

  /** An absent mask renders like a zero mask (Command only). */
  lemma AbsentModifiersAreZero(c: Option<string>)
    ensures FormatShortcut(c, None) == FormatShortcut(c, Some(0))
  {
  }

  /** The unit tests of src/menu/shortcut.rs. */
  lemma CommandOnlyExample()
    ensures FormatShortcut(Some("S"), Some(0)) == Some("⌘S")
  {
    assert !HasBit(0, ControlBit) && !HasBit(0, OptionBit) && !HasBit(0, ShiftBit) && !HasBit(0, NoCommandBit);
    assert Bits(0) == 0;
    assert Trim("S") == "S";
    assert Glyphs(false, false, false, true) == "⌘";
    assert "⌘" + "S" == "⌘S";
  }

  lemma ShiftCommandExample()
    ensures FormatShortcut(Some("S"), Some(1)) == Some("⇧⌘S")
  {
    assert !HasBit(1, ControlBit) && !HasBit(1, OptionBit) && HasBit(1, ShiftBit) && !HasBit(1, NoCommandBit);
    assert Bits(1) == 1;
    assert Trim("S") == "S";
    assert Glyphs(false, false, true, true) == "⇧⌘";
    assert "⇧⌘" + "S" == "⇧⌘S";
  }

  lemma OptionCommandExample()
    ensures FormatShortcut(Some("W"), Some(2)) == Some("⌥⌘W")
  {
    assert !HasBit(2, ControlBit) && HasBit(2, OptionBit) && !HasBit(2, ShiftBit) && !HasBit(2, NoCommandBit);
    assert Bits(2) == 2;
    assert Trim("W") == "W";
    assert Glyphs(false, true, false, true) == "⌥⌘";
    assert "⌥⌘" + "W" == "⌥⌘W";
  }

  lemma ControlOnlyExample()
    ensures FormatShortcut(Some("F"), Some(0x4 + 0x8)) == Some("⌃F")
  {
    assert HasBit(0x4 + 0x8, ControlBit) && !HasBit(0x4 + 0x8, OptionBit) && !HasBit(0x4 + 0x8, ShiftBit) && HasBit(0x4 + 0x8, NoCommandBit);
    assert Bits(0x4 + 0x8) == 0xC;
    assert Trim("F") == "F";
    assert Glyphs(true, false, false, false) == "⌃";
    assert "⌃" + "F" == "⌃F";
  }

  /** The mask 3 sets Shift and Option: the rendering is "⌥⇧⌘S", not the
      "⌥⌘S" of the doc comment of `format_shortcut`. */
  lemma ShiftOptionCommandExample()
    ensures FormatShortcut(Some("S"), Some(3)) == Some("⌥⇧⌘S")
  {
    assert !HasBit(3, ControlBit) && HasBit(3, OptionBit) && HasBit(3, ShiftBit) && !HasBit(3, NoCommandBit);
    assert Bits(3) == 3;
    assert Trim("S") == "S";
    assert Glyphs(false, true, true, true) == "⌥⇧⌘";
    assert "⌥⇧⌘" + "S" == "⌥⇧⌘S";
  }

  lemma NoCharExamples()
    ensures FormatShortcut(None, Some(0)) == None
    ensures FormatShortcut(Some(""), Some(0)) == None
  {
  }
}
