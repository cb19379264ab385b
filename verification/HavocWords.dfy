/** What the tweaks of words in the havoc stage do to the bytes of the test case. */
module HavocWords {
  import opened Bytes
  import opened DupTests
  import opened DetStages
  import opened Havoc
  import Words = DetWords

  /** Cases 6 to 9, on the bytes: one word changes, and read in one of the byte orders it moves by 1 to 35. */
  lemma ArithmeticMoves(s: seq<byte>, t: Tweak, width: nat, up: bool)
    requires (width == 2 || width == 4) && Legal(s, t) && Arithmetic(s, t, width, up)
    ensures AgreeOutside(Applied(s, t), s, t.at, width)
    ensures exists order, d :: Offset(d, up) && Words.Read(order, Applied(s, t), t.at, width)
                                              == (Words.Read(order, s, t.at, width) + d) % Words.Size(width)
  {
    hide Range, Peek, Words.Read, Swap16, Swap32;
    var was := Peek(s, t.at, width);
    var d, bigEndian :| Offset(d, up) && t.value == MovedWord(was, d, width, bigEndian);
    var r := Applied(s, t);
    Words.StoredIff(s, r, t.at, width, t.value);
    Words.Words(s, t.at, width);
    Words.Words(r, t.at, width);
    if width == 2 {
      Swap16Undoes(Moved(Swap16(was), d, 0x1_0000));
    } else {
      Swap32Undoes(Moved(Swap32(was), d, 0x1_0000_0000));
    }
    var order := if bigEndian then Words.BigEndian else Words.LittleEndian;
    assert Offset(d, up)
        && Words.Read(order, r, t.at, width) == (Words.Read(order, s, t.at, width) + d) % Words.Size(width);
  }

  /** Cases 2 and 3, on the bytes: one word changes, and in one of the byte orders it reads an interesting
      value. */
  lemma InterestingStands(s: seq<byte>, t: Tweak, width: nat)
    requires (width == 2 || width == 4) && Legal(s, t) && Interesting(t, width)
    ensures AgreeOutside(Applied(s, t), s, t.at, width)
    ensures exists order :: Words.IsInteresting(order, Applied(s, t), t.at, width)
  {
    hide Range, Peek, Words.Read, Swap16, Swap32, INTERESTING_16, INTERESTING_32;
    var x :| x in Values(width) && Encodes(t.value, x, width);
    var r := Applied(s, t);
    RangeOfSpan(Flip16);
    Words.StoredIff(s, r, t.at, width, t.value);
    Words.Words(r, t.at, width);
    if width == 2 {
      Swap16Undoes(x % 0x1_0000);
    } else {
      Swap32Undoes(x % 0x1_0000_0000);
    }
    var order := if t.value == x % Words.Size(width) then Words.LittleEndian else Words.BigEndian;
    var k :| 0 <= k < |Values(width)| && Values(width)[k] == x;
    assert Words.Values(width) == Values(width);
    assert Words.Read(order, r, t.at, width) == Words.Values(width)[k] % Words.Size(width);
    assert Words.IsInteresting(order, r, t.at, width);
  }
}
