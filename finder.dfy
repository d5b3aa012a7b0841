/** `remove_bom` of the line-oriented finder (fd/src/finder.cpp). */
module Finder {

  newtype byte = x: int | 0 <= x < 256

  /** The UTF-8 encoding of U+FEFF, the byte order mark of section 6 of RFC 3629. */
  const Bom: seq<byte> := [0xEF, 0xBB, 0xBF]

  predicate HasBom(line: seq<byte>)
  {
    |line| >= 3 && line[0] == 0xEF && line[1] == 0xBB && line[2] == 0xBF
  }

  /** Drops a leading byte order mark, if there is one, and nothing else. */
  function RemoveBom(line: seq<byte>): (r: seq<byte>)
    ensures HasBom(line) ==> line == Bom + r
    ensures !HasBom(line) ==> r == line
    ensures |r| == |line| || |r| == |line| - 3
    ensures r == line[|line| - |r|..]
  {
    if HasBom(line) then line[3..] else line
  }

  /** A line that starts with the mark loses exactly those three bytes. */
  lemma RemoveBomInverse(text: seq<byte>)
    ensures RemoveBom(Bom + text) == text
  {
    assert HasBom(Bom + text);
    assert (Bom + text)[3..] == text;
  }

  /** A line shorter than the mark is returned as it is. */
  lemma ShortLinesUnchanged(line: seq<byte>)
    requires |line| < 3
    ensures RemoveBom(line) == line
  {
  }

  /** Only one mark is removed: a doubled mark leaves one behind, so the
      function is not idempotent. */
  lemma RemoveBomNotIdempotent()
    ensures RemoveBom(Bom + Bom) == Bom
    ensures RemoveBom(RemoveBom(Bom + Bom)) == []
    ensures RemoveBom(RemoveBom(Bom + Bom)) != RemoveBom(Bom + Bom)
  {
    RemoveBomInverse(Bom);
    RemoveBomInverse([]);
    assert Bom + [] == Bom;
  }
}
