/** The domain name decoder on arbitrary bytes (common.c): it takes exactly the wire
    form of a list of printable labels and gives their text. */
module NameLabels {
  import opened Bytes
  import opened Names

  /** Labels of one to 63 printable characters. */
  predicate LabelsOk(labels: seq<seq<byte>>) {
    forall k :: 0 <= k < |labels| ==>
      1 <= |labels[k]| <= 63 && forall j :: 0 <= j < |labels[k]| ==> 32 <= labels[k][j] <= 126
  }

  /** Each label behind its length. */
  function WireOf(labels: seq<seq<byte>>): seq<byte>
    requires LabelsOk(labels)
  {
    if labels == [] then [] else [|labels[0]|] + labels[0] + WireOf(labels[1..])
  }

  /** Each label with a dot behind it; the root is a single dot. */
  function TextOf(labels: seq<seq<byte>>): seq<byte> {
    if labels == [] then [DOT] else if |labels| == 1 then labels[0] + [DOT] else labels[0] + [DOT] + TextOf(labels[1..])
  }

  // The text when `acc` is there already.
  function TextBehind(acc: seq<byte>, first: bool, labels: seq<seq<byte>>): (t: seq<byte>)
    ensures |t| >= |acc|
    decreases |labels|
  {
    if labels == [] then acc + [DOT]
    else TextBehind((if first then acc else acc + [DOT]) + labels[0], false, labels[1..])
  }

  lemma {:induction false} TextBehindIs(acc: seq<byte>, labels: seq<seq<byte>>)
    ensures TextBehind(acc, true, labels) == acc + TextOf(labels)
    ensures TextBehind(acc, false, labels) == if labels == [] then acc + [DOT] else acc + [DOT] + TextOf(labels)
    decreases |labels|
  {
    if labels == [] {
    } else {
      TextBehindIs(acc + labels[0], labels[1..]);
      TextBehindIs(acc + [DOT] + labels[0], labels[1..]);
      var t := if |labels| == 1 then [DOT] else [DOT] + TextOf(labels[1..]);
      assert TextOf(labels) == labels[0] + t;
      assert acc + labels[0] + t == acc + (labels[0] + t);
      assert acc + [DOT] + labels[0] + t == acc + [DOT] + (labels[0] + t);
      assert acc + labels[0] + [DOT] + TextOf(labels[1..]) == acc + labels[0] + ([DOT] + TextOf(labels[1..]));
      assert acc + [DOT] + labels[0] + [DOT] + TextOf(labels[1..])
          == acc + [DOT] + labels[0] + ([DOT] + TextOf(labels[1..]));
    }
  }

  // ---- what is taken is the wire form of labels --------------------------

  lemma {:induction false} LabelTaken(l: seq<byte>, labels: seq<seq<byte>>, z: seq<byte>)
    requires 1 <= |l| <= 63 && AllPrint(l) && LabelsOk(labels)
    ensures LabelsOk([l] + labels) && WireOf([l] + labels) + z == [|l|] + l + (WireOf(labels) + z)
  {
    assert ([l] + labels)[1..] == labels;
  }

  lemma {:induction false} DecodeStep(b: seq<byte>, first: bool, acc: seq<byte>)
    requires DecodeFrom(b, first, acc).Some? && b != [] && b[0] != 0
    ensures var i, acc1 := b[0], if first then acc else acc + [DOT];
            && i <= 63 && i < |b| && AllPrint(b[1..i + 1])
            && DecodeFrom(b, first, acc) == DecodeFrom(b[i + 1..], false, acc1 + b[1..i + 1])
  {
    hide AllPrint;
  }

  lemma {:induction false} DecodeStop(b: seq<byte>, first: bool, acc: seq<byte>)
    requires DecodeFrom(b, first, acc).Some?
    ensures b != []
    ensures b[0] == 0 ==> |acc + [DOT]| <= MAXDNAME && DecodeFrom(b, first, acc) == Some((acc + [DOT], b[1..]))
  {
    hide AllPrint;
  }

  lemma {:induction false} TextStep(acc: seq<byte>, first: bool, l: seq<byte>, labels: seq<seq<byte>>)
    ensures TextBehind(acc, first, [l] + labels) == TextBehind((if first then acc else acc + [DOT]) + l, false, labels)
    ensures TextBehind(acc, first, []) == acc + [DOT]
  {
    assert ([l] + labels)[1..] == labels;
  }

  lemma {:induction false} DecodedFrom(b: seq<byte>, first: bool, acc: seq<byte>) returns (labels: seq<seq<byte>>)
    requires DecodeFrom(b, first, acc).Some?
    ensures var (text, rest) := DecodeFrom(b, first, acc).value;
            && LabelsOk(labels) && b == WireOf(labels) + ([0] + rest)
            && text == TextBehind(acc, first, labels) && |text| <= MAXDNAME
    decreases |b|
  {
    hide AllPrint, LabelsOk, WireOf, DecodeFrom, TextBehind;
    DecodeStop(b, first, acc);
    var i := b[0];
    if i == 0 {
      labels := [];
      EmptyWire(b);
      TextStep(acc, first, [], []);
    } else {
      DecodeStep(b, first, acc);
      var l := b[1..i + 1];
      var acc1 := if first then acc else acc + [DOT];
      var more := DecodedFrom(b[i + 1..], false, acc1 + l);
      labels := [l] + more;
      LabelTaken(l, more, [0] + DecodeFrom(b, first, acc).value.1);
      TextStep(acc, first, l, more);
      assert b == [i] + l + b[i + 1..];
    }
  }

  lemma {:induction false} EmptyWire(b: seq<byte>)
    requires b != [] && b[0] == 0
    ensures LabelsOk([]) && b == WireOf([]) + ([0] + b[1..])
  {
    assert b == [b[0]] + b[1..];
  }

  // ---- the wire form of labels is taken ----------------------------------

  lemma {:induction false} LabelHead(labels: seq<seq<byte>>, z: seq<byte>)
    requires labels != [] && LabelsOk(labels)
    ensures var b, l := WireOf(labels) + z, labels[0];
            && AllPrint(l) && |b| > |l| && b[0] == |l| && b[1..|l| + 1] == l
            && LabelsOk(labels[1..]) && b[|l| + 1..] == WireOf(labels[1..]) + z
  {
    var b, l := WireOf(labels) + z, labels[0];
    assert b == [|l|] + l + (WireOf(labels[1..]) + z);
  }

  lemma {:induction false} Decodes(labels: seq<seq<byte>>, rest: seq<byte>, first: bool, acc: seq<byte>)
    requires LabelsOk(labels) && |TextBehind(acc, first, labels)| <= MAXDNAME
    ensures DecodeFrom(WireOf(labels) + ([0] + rest), first, acc) == Some((TextBehind(acc, first, labels), rest))
    decreases |labels|
  {
    hide AllPrint;
    var b := WireOf(labels) + ([0] + rest);
    if labels == [] {
      assert b == [0] + rest && b[1..] == rest;
    } else {
      hide LabelsOk, WireOf;
      LabelHead(labels, [0] + rest);
      LabelSize(labels);
      var acc1 := if first then acc else acc + [DOT];
      Decodes(labels[1..], rest, false, acc1 + labels[0]);
    }
  }

  lemma {:induction false} LabelSize(labels: seq<seq<byte>>)
    requires labels != [] && LabelsOk(labels)
    ensures 1 <= |labels[0]| <= 63
  {
  }

  /** dnsdecode on any bytes: it succeeds exactly on the wire form of a list of labels of
      one to 63 printable characters, closed by a zero byte, whose text fits 255
      bytes, and gives that text and what follows. */
  lemma {:induction false} DecodesExactly(b: seq<byte>, text: seq<byte>, rest: seq<byte>)
    ensures DnsDecode(b) == Some((text, rest)) <==>
            exists labels ::
              LabelsOk(labels) && b == WireOf(labels) + ([0] + rest) && text == TextOf(labels) && |text| <= MAXDNAME
  {
    hide LabelsOk, WireOf, TextOf, TextBehind, DecodeFrom;
    if DnsDecode(b) == Some((text, rest)) {
      var labels := DecodedFrom(b, true, []);
      TextBehindIs([], labels);
      assert [] + TextOf(labels) == TextOf(labels);
    }
    if labels :| LabelsOk(labels) && b == WireOf(labels) + ([0] + rest)
                 && text == TextOf(labels) && |text| <= MAXDNAME {
      TextBehindIs([], labels);
      assert [] + TextOf(labels) == TextOf(labels);
      Decodes(labels, rest, true, []);
    }
  }
}
