/** Bytes, and the C convention that a string ends at its first zero byte. */
module Bytes {
  type byte = x: int | 0 <= x < 256

  type Text = seq<byte>

  const QUOTE: byte := 34      // "
  const APOSTROPHE: byte := 39 // '
  const NEWLINE: byte := 10
  const CR: byte := 13
  const TAB: byte := 9
  const BACKSLASH: byte := 92

  /** The bytes are those of the characters. */
  lemma ByteValues()
    ensures QUOTE as int == '"' as int && APOSTROPHE as int == '\'' as int && BACKSLASH as int == '\\' as int
    ensures NEWLINE as int == '\n' as int && CR as int == '\r' as int && TAB as int == '\t' as int
  {}

  /** The content of a C string: no zero byte inside. */
  predicate NulFree(s: Text) {
    forall i :: 0 <= i < |s| ==> s[i] != 0
  }

  /** z[i] for a C string with this content: the byte after the last one is zero. */
  function At(s: Text, i: nat): byte
    requires i <= |s|
  {
    if i < |s| then s[i] else 0
  }

  // ----- doubled quotes -----

  /** The text with every `quote` doubled. */
  function Double(z: Text, quote: byte): Text {
    if z == [] then [] else (if z[0] == quote then [quote, quote] else [z[0]]) + Double(z[1..], quote)
  }

  lemma {:induction false} DoubleAppend(a: Text, b: Text, quote: byte)
    ensures Double(a + b, quote) == Double(a, quote) + Double(b, quote)
  {
    if a == [] {
      assert a + b == b;
    } else {
      assert (a + b)[0] == a[0] && (a + b)[1..] == a[1..] + b;
      DoubleAppend(a[1..], b, quote);
    }
  }

  lemma DoubleOne(b: byte, quote: byte)
    ensures Double([b], quote) == if b == quote then [quote, quote] else [b]
  {
    assert [b][1..] == [];
  }

  lemma DoubleSnoc(z: Text, b: byte, quote: byte)
    ensures Double(z + [b], quote) == Double(z, quote) + if b == quote then [quote, quote] else [b]
  {
    DoubleAppend(z, [b], quote);
    DoubleOne(b, quote);
  }
}
