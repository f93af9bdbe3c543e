/** GPT-2's table from the 256 byte values to printable characters, used by
    `from_files` to map the serialized vocabulary back to raw bytes. */
module ByteUnicode {

  /** The 188 bytes that are shown as themselves: '!'..'~', '¡'..'¬' and '®'..'ÿ'. */
  predicate Printable(b: int)
  {
    (33 <= b <= 126) || (161 <= b <= 172) || (174 <= b <= 255)
  }

  /** `bs` before the loop: the three ranges of printable bytes, concatenated. */
  function PrintableList(): seq<int>
  {
    seq(94, i => 33 + i) + seq(12, i => 161 + i) + seq(82, i => 174 + i)
  }

  /** How many bytes below `b` are not printable. */
  function NonPrintableBelow(b: nat): (n: nat)
    ensures n <= b
  {
    if b == 0 then 0 else NonPrintableBelow(b - 1) + (if Printable(b - 1) then 0 else 1)
  }

  /** The code point the table gives byte `b`: itself if printable, otherwise
      256 plus the number of non-printable bytes below it. */
  function CodePoint(b: nat): nat
  {
    if Printable(b) then b else 256 + NonPrintableBelow(b)
  }

  /** What the loop of `gpt2_bytes_to_unicode` has built before byte `b`: the
      printable bytes and every byte below `b`, each once, each paired with its
      code point, and `n` non-printable bytes appended so far. */
  ghost predicate BytesBefore(bs: seq<int>, cs: seq<int>, n: int, b: nat)
  {
    && |bs| == |cs|
    && n == NonPrintableBelow(b)
    && (forall i :: 0 <= i < |bs| ==> 0 <= bs[i] < 256 && cs[i] == CodePoint(bs[i]))
    && (forall i, j :: 0 <= i < j < |bs| ==> bs[i] != bs[j])
    && (forall x :: 0 <= x < 256 ==> (x in bs <==> Printable(x) || x < b))
  }

  /** The order of `bs` before byte `b`: the printable list first, then the
      bytes the loop has appended, each below `b`, in increasing order. */
  ghost predicate AppendedInOrder(bs: seq<int>, b: nat)
  {
    && |bs| >= 188 && bs[..188] == PrintableList()
    && (forall i, j :: 188 <= i < j < |bs| ==> bs[i] < bs[j])
    && (forall i :: 188 <= i < |bs| ==> bs[i] < b)
  }

  /** The invariant of the loop of `gpt2_bytes_to_unicode`. */
  ghost predicate ListsBefore(bs: seq<int>, cs: seq<int>, n: int, b: nat)
  {
    BytesBefore(bs, cs, n, b) && AppendedInOrder(bs, b)
  }

  /** Before the loop, the lists hold the printable bytes. */
  lemma ListsBeforeStart()
    ensures ListsBefore(PrintableList(), PrintableList(), 0, 0)
  {
    PrintableListExact();
  }

  /** One iteration of the loop keeps `BytesBefore`. */
  lemma BytesBeforeStep(bs: seq<int>, cs: seq<int>, n: int, b: nat)
    requires b < 256 && BytesBefore(bs, cs, n, b)
    ensures b !in bs ==> BytesBefore(bs + [b], cs + [256 + n], n + 1, b + 1)
    ensures b in bs ==> BytesBefore(bs, cs, n, b + 1)
  {
    if b !in bs {
      assert !Printable(b) && CodePoint(b) == 256 + n;
      assert forall x :: x in bs + [b] <==> x in bs || x == b;
    }
  }

  /** Appending byte `b`, or nothing, keeps `AppendedInOrder`. */
  lemma AppendedInOrderStep(bs: seq<int>, b: nat)
    requires AppendedInOrder(bs, b)
    ensures AppendedInOrder(bs + [b], b + 1)
    ensures AppendedInOrder(bs, b + 1)
  {
    assert (bs + [b])[..188] == bs[..188];
  }

  /** One iteration of the loop keeps `ListsBefore`: a missing byte is appended
      with code point `256 + n`, a present byte is skipped. */
  lemma ListsBeforeStep(bs: seq<int>, cs: seq<int>, n: int, b: nat)
    requires b < 256 && ListsBefore(bs, cs, n, b)
    ensures b !in bs ==> ListsBefore(bs + [b], cs + [256 + n], n + 1, b + 1)
    ensures b in bs ==> ListsBefore(bs, cs, n, b + 1)
  {
    BytesBeforeStep(bs, cs, n, b);
    AppendedInOrderStep(bs, b);
  }

  /** The lists `bs` and `cs` of `gpt2_bytes_to_unicode`: the printable bytes,
      then every non-printable byte appended in increasing order, each with its
      code point. */
  method ByteOrder() returns (bs: seq<int>, cs: seq<int>)
    ensures |bs| == |cs|
    ensures forall i :: 0 <= i < |bs| ==> 0 <= bs[i] < 256 && cs[i] == CodePoint(bs[i])
    ensures forall i, j :: 0 <= i < j < |bs| ==> bs[i] != bs[j]
    ensures forall x :: 0 <= x < 256 ==> x in bs
    ensures |bs| >= 188 && bs[..188] == PrintableList()
    ensures forall i, j :: 188 <= i < j < |bs| ==> bs[i] < bs[j]
  {
    bs := PrintableList();
    cs := bs;
    var n := 0;
    ListsBeforeStart();
    for b := 0 to 256
      invariant ListsBefore(bs, cs, n, b)
    {
      ListsBeforeStep(bs, cs, n, b);
      if b !in bs {
        bs := bs + [b];
        cs := cs + [256 + n];
        n := n + 1;
      }
    }
  }

  /** `gpt2_bytes_to_unicode`: the two lists zipped into a dictionary. */
  method BytesToUnicode() returns (d: map<int, char>)
    ensures forall b :: b in d <==> 0 <= b < 256
    ensures forall b :: 0 <= b < 256 ==> d[b] as int == CodePoint(b)
    ensures forall b, b' :: b in d && b' in d && b != b' ==> d[b] != d[b']
  {
    var bs, cs := ByteOrder();
    var characters := seq(|cs|, i requires 0 <= i < |cs| => CharOf(cs[i]));
    d := map i | 0 <= i < |bs| :: bs[i] := characters[i];
    forall x | 0 <= x < 256
      ensures x in d && d[x] as int == CodePoint(x)
    {
      assert x in bs;
      var i :| 0 <= i < |bs| && bs[i] == x;
      assert d[bs[i]] == characters[i];
    }
    forall b, b' | b in d && b' in d && b != b'
      ensures d[b] != d[b']
    {
      CodePointInjective(b, b');
    }
  }

  /** `chr(c)` for the code points the table produces (all below 512). */
  function CharOf(c: nat): (r: char)
    requires c < 512
    ensures r as int == c
  {
    c as char
  }

  /** Each later non-printable byte gets a strictly larger code point. */
  lemma {:induction false} NonPrintableBelowGrows(x: nat, y: nat)
    requires x < y && !Printable(x)
    ensures NonPrintableBelow(x) < NonPrintableBelow(y)
  {
    if y > x + 1 {
      NonPrintableBelowGrows(x, y - 1);
    }
  }

  /** The table is injective on bytes. */
  lemma CodePointInjective(b: nat, b': nat)
    requires b < 256 && b' < 256 && b != b'
    ensures CodePoint(b) != CodePoint(b')
  {
    if !Printable(b) && !Printable(b') {
      if b < b' { NonPrintableBelowGrows(b, b'); } else { NonPrintableBelowGrows(b', b); }
    }
  }

  /** The count of non-printable bytes below `b`, in closed form: 0..32 (33 bytes),
      127..160 (34 bytes) and 173 (one byte) are the 68 non-printable ones. */
  lemma {:induction false} NonPrintableBelowClosedForm(b: nat)
    requires b <= 256
    ensures NonPrintableBelow(b) ==
      if b <= 33 then b
      else if b <= 127 then 33
      else if b <= 161 then 33 + (b - 127)
      else if b <= 173 then 67
      else 68
  {
    if b > 0 {
      NonPrintableBelowClosedForm(b - 1);
    }
  }

  /** The initial list holds exactly the 188 printable bytes, in increasing order. */
  lemma PrintableListExact()
    ensures |PrintableList()| == 188
    ensures forall i, j :: 0 <= i < j < 188 ==> PrintableList()[i] < PrintableList()[j]
    ensures forall x :: x in PrintableList() <==> 0 <= x < 256 && Printable(x)
    ensures forall i :: 0 <= i < 188 ==> 0 <= PrintableList()[i] < 256 && Printable(PrintableList()[i])
  {
    forall x | 0 <= x < 256 && Printable(x)
      ensures x in PrintableList()
    {
      if x <= 126 { assert PrintableList()[x - 33] == x; }
      else if x <= 172 { assert PrintableList()[x - 161 + 94] == x; }
      else { assert PrintableList()[x - 174 + 106] == x; }
    }
  }

  /** 188 bytes are printable; the other 68 get the code points 256..323, one each. */
  lemma TableShape()
    ensures |PrintableList()| == 188
    ensures NonPrintableBelow(256) == 68
    ensures forall b :: 0 <= b < 256 && !Printable(b) ==> 256 <= CodePoint(b) < 256 + 68
  {
    PrintableListExact();
    NonPrintableBelowClosedForm(256);
    forall b | 0 <= b < 256 && !Printable(b)
      ensures CodePoint(b) < 256 + 68
    {
      NonPrintableBelowGrows(b, 256);
    }
  }

  /** The examples of the function's documentation: 0 becomes 'Ā', the space
      becomes 'Ġ', and '!' stays '!'. */
  lemma DocumentedExamples()
    ensures CodePoint(0) == 0x100 && CodePoint(32) == 0x120 && CodePoint(33) == 33
  {
    NonPrintableBelowClosedForm(0);
    NonPrintableBelowClosedForm(32);
  }
}
