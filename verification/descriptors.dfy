/**
  `formatDesc`: the text of one range in a support column, a changelog link
  whose label is the range and whose anchor is `opType-lo`; and the reader
  that takes such a link apart again.
 */
module Descriptors {
  import opened Wrappers
  import opened Text

  const OnnxRepository: string := "https://github.com/onnx/onnx"
  const ChangelogUrl: string := OnnxRepository + "/blob/main/docs/Changelog.md"

  /** The upper end a label announces: a version, or "and every later one". */
  datatype Upper = Bounded(hi: int) | Unbounded

  datatype Label = Label(lo: nat, upper: Upper)

  /** The label of a range: `lo+` for the last one, else `lo` or `lo-hi`. */
  function VersionText(lo: nat, hi: int, last: bool): string {
    if last then NatToString(lo) + "+"
    else if lo == hi then NatToString(lo)
    else NatToString(lo) + "-" + IntToString(hi)
  }

  /** What follows the label: the changelog link, anchored at `opType-lo`. */
  function LinkTail(opType: string, lo: nat): string {
    "](" + ChangelogUrl + "#" + opType + "-" + NatToString(lo) + ")"
  }

  /** The descriptor of a range: empty when unsupported, else a link. */
  function FormatDesc(opType: string, lo: nat, hi: int, support: bool, last: bool): (d: string)
    ensures d == "" <==> !support
  {
    if support then "[" + VersionText(lo, hi, last) + LinkTail(opType, lo) else ""
  }

  /** Reads a label `lo`, `lo+` or `lo-hi` (where `hi` may carry a sign). */
  function ParseVersionText(s: string): Option<Label> {
    var k := RunLength(s, IsDigit);
    if k == 0 then None
    else
      var lo := DigitsValue(s[..k]);
      var rest := s[k..];
      if rest == "" then Some(Label(lo, Bounded(lo)))
      else if rest == "+" then Some(Label(lo, Unbounded))
      else if rest[0] == '-' then
        match ParseInt(rest[1..])
        case Some(hi) => Some(Label(lo, Bounded(hi)))
        case None => None
      else None
  }

  predicate IsLabelChar(c: char) {
    IsDigit(c) || c == '-' || c == '+'
  }

  /** Reads the descriptor of a range of `opType`, checking the link around the label. */
  function ParseDesc(opType: string, d: string): Option<Label> {
    if d == [] || d[0] != '[' then None
    else
      var k := RunLength(d[1..], IsLabelChar);
      match ParseVersionText(d[1..k + 1])
      case None => None
      case Some(l) =>
        if d[k + 1..] == LinkTail(opType, l.lo)
        then Some(l)
        else None
  }

  /** The label names the range it came from; the last range reads as unbounded. */
  lemma VersionTextRoundTrip(lo: nat, hi: int, last: bool)
    ensures ParseVersionText(VersionText(lo, hi, last)) == Some(Label(lo, if last then Unbounded else Bounded(hi)))
  {
    var digits := NatToString(lo);
    var rest := if last then "+" else if lo == hi then "" else "-" + IntToString(hi);
    var s := VersionText(lo, hi, last);
    assert s == digits + rest;
    RunLengthOfConcat(digits, rest, IsDigit);
    assert s[..|digits|] == digits && s[|digits|..] == rest;
    NatToStringRoundTrip(lo);
    if !last && lo != hi {
      assert rest[1..] == IntToString(hi);
      IntToStringRoundTrip(hi);
    }
  }

  lemma VersionTextChars(lo: nat, hi: int, last: bool)
    ensures forall i :: 0 <= i < |VersionText(lo, hi, last)| ==> IsLabelChar(VersionText(lo, hi, last)[i])
  {
    var digits := NatToString(lo);
    var hiText := IntToString(hi);
    assert forall i :: 0 <= i < |hiText| ==> IsLabelChar(hiText[i]) by {
      assert hiText[0] == '-' || IsDigit(hiText[0]);
    }
  }

  /** A link around a well-formed label reads back as that label. */
  lemma ParseLink(opType: string, text: string, l: Label)
    requires forall i :: 0 <= i < |text| ==> IsLabelChar(text[i])
    requires ParseVersionText(text) == Some(l)
    ensures ParseDesc(opType, "[" + text + LinkTail(opType, l.lo)) == Some(l)
  {
    var tail := LinkTail(opType, l.lo);
    var d := "[" + text + tail;
    assert RunLength(d[1..], IsLabelChar) == |text| by {
      assert d[1..] == text + tail;
      assert tail[0] == ']';
      RunLengthOfConcat(text, tail, IsLabelChar);
    }
    assert d[1..|text| + 1] == text && d[|text| + 1..] == tail;
  }

  /** A supported range's descriptor reads back as that range's label. */
  lemma FormatDescRoundTrip(opType: string, lo: nat, hi: int, last: bool)
    ensures ParseDesc(opType, FormatDesc(opType, lo, hi, true, last))
         == Some(Label(lo, if last then Unbounded else Bounded(hi)))
  {
    VersionTextChars(lo, hi, last);
    VersionTextRoundTrip(lo, hi, last);
    ParseLink(opType, VersionText(lo, hi, last), Label(lo, if last then Unbounded else Bounded(hi)));
  }

  lemma ChangelogUrlNoComma()
    ensures NoComma(ChangelogUrl)
  {
    assert NoComma(OnnxRepository);
    assert NoComma("/blob/main/docs/Changelog.md");
    NoCommaConcat(OnnxRepository, "/blob/main/docs/Changelog.md");
  }

  /** Descriptors hold no comma when the type name holds none. */
  lemma FormatDescNoComma(opType: string, lo: nat, hi: int, support: bool, last: bool)
    requires NoComma(opType)
    ensures NoComma(FormatDesc(opType, lo, hi, support, last))
  {
    if support {
      VersionTextChars(lo, hi, last);
      ChangelogUrlNoComma();
      var text := VersionText(lo, hi, last);
      var lo' := NatToString(lo);
      assert NoComma(text);
      assert NoComma(lo');
      NoCommaConcat("](", ChangelogUrl);
      NoCommaConcat("](" + ChangelogUrl, "#");
      NoCommaConcat("](" + ChangelogUrl + "#", opType);
      NoCommaConcat("](" + ChangelogUrl + "#" + opType, "-");
      NoCommaConcat("](" + ChangelogUrl + "#" + opType + "-", lo');
      NoCommaConcat("](" + ChangelogUrl + "#" + opType + "-" + lo', ")");
      NoCommaConcat("[", text);
      NoCommaConcat("[" + text, LinkTail(opType, lo));
    }
  }
}
