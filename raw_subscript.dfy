/** RawSubscript (RawSubscript.hpp): the label sequences of the operands
    and of the result of an Einstein summation, and the queries over them. */
module RawSubscripts {
  /** A label is a char (Label in the source). */
  type Label = char

  /** OperandPos and LabelPos are uint8_t: a stored position wraps modulo 256. */
  type Byte = n: nat | n < 256

  datatype RawSubscript = RawSubscript(operands: seq<seq<Label>>, result: seq<Label>)

  /** The labels occurring in one label sequence. */
  function LabelSet(op: seq<Label>): set<Label>
  {
    set l | l in op
  }

  /** The labels occurring in some operand, operand by operand. */
  function OperandLabels(ops: seq<seq<Label>>): set<Label>
  {
    if ops == [] then {} else OperandLabels(ops[..|ops| - 1]) + LabelSet(ops[|ops| - 1])
  }

  /** OperandLabels is the union of the labels of all operands. */
  lemma {:induction false} OperandLabelsUnion(ops: seq<seq<Label>>)
    ensures forall l :: l in OperandLabels(ops) <==> exists i :: 0 <= i < |ops| && l in ops[i]
  {
    if ops != [] {
      var init := ops[..|ops| - 1];
      OperandLabelsUnion(init);
      forall l
        ensures l in OperandLabels(ops) <==> exists i :: 0 <= i < |ops| && l in ops[i]
      {
        if l in OperandLabels(init) {
          var i :| 0 <= i < |init| && l in init[i];
          assert ops[i] == init[i];
        }
        if exists i :: 0 <= i < |ops| && l in ops[i] {
          var i :| 0 <= i < |ops| && l in ops[i];
          if i < |init| {
            assert init[i] == ops[i];
          }
        }
      }
    }
  }

  /** Appending a label adds it to the label set. */
  lemma LabelSetSnoc(op: seq<Label>, l: Label)
    ensures LabelSet(op + [l]) == LabelSet(op) + {l}
  {
  }

  /** Adding one label to a sequence adds it to the label set. */
  lemma LabelSetStep(op: seq<Label>, j: nat)
    requires j < |op|
    ensures LabelSet(op[..j + 1]) == LabelSet(op[..j]) + {op[j]}
  {
    assert op[..j + 1] == op[..j] + [op[j]];
  }

  /** Taking one more operand adds its labels to the union. */
  lemma OperandLabelsStep(ops: seq<seq<Label>>, i: nat)
    requires i < |ops|
    ensures OperandLabels(ops[..i + 1]) == OperandLabels(ops[..i]) + LabelSet(ops[i])
  {
    assert ops[..i + 1][..i] == ops[..i];
  }

  /** getOperandsLabelSet: every label of every operand, inserted one by one. */
  method GetOperandsLabelSet(s: RawSubscript) returns (labels: set<Label>)
    ensures labels == OperandLabels(s.operands)
    ensures forall l :: l in labels <==> exists i :: 0 <= i < |s.operands| && l in s.operands[i]
  {
    OperandLabelsUnion(s.operands);
    labels := {};
    var i := 0;
    while i < |s.operands|
      invariant 0 <= i <= |s.operands|
      invariant labels == OperandLabels(s.operands[..i])
    {
      var op := s.operands[i];
      var j := 0;
      while j < |op|
        invariant 0 <= j <= |op|
        invariant labels == OperandLabels(s.operands[..i]) + LabelSet(op[..j])
      {
        LabelSetStep(op, j);
        labels := labels + {op[j]};
        j := j + 1;
      }
      assert op[..j] == op;
      OperandLabelsStep(s.operands, i);
      i := i + 1;
    }
    assert s.operands[..i] == s.operands;
  }

  /** getResultLabelSet: every label of the result. */
  method GetResultLabelSet(s: RawSubscript) returns (labels: set<Label>)
    ensures labels == LabelSet(s.result)
    ensures forall l :: l in labels <==> l in s.result
  {
    labels := {};
    var pos := 0;
    while pos < |s.result|
      invariant 0 <= pos <= |s.result|
      invariant labels == LabelSet(s.result[..pos])
    {
      LabelSetStep(s.result, pos);
      labels := labels + {s.result[pos]};
      pos := pos + 1;
    }
    assert s.result[..pos] == s.result;
  }

  /** The positions at which a label occurs in a label sequence, ascending. */
  function Occurrences(op: seq<Label>, lab: Label): (ps: seq<nat>)
    ensures forall k :: 0 <= k < |ps| ==> ps[k] < |op| && op[ps[k]] == lab
    ensures forall k, m :: 0 <= k < m < |ps| ==> ps[k] < ps[m]
    ensures forall p :: 0 <= p < |op| && op[p] == lab ==> p in ps
  {
    if op == [] then []
    else
      var init := Occurrences(op[..|op| - 1], lab);
      if op[|op| - 1] == lab then init + [|op| - 1] else init
  }

  /** There are as many occurrences as the label's multiplicity. */
  lemma {:induction false} OccurrencesCount(op: seq<Label>, lab: Label)
    ensures |Occurrences(op, lab)| == multiset(op)[lab]
  {
    if op != [] {
      var init := op[..|op| - 1];
      OccurrencesCount(init, lab);
      assert op == init + [op[|op| - 1]];
    }
  }

  /** Positions as the source stores them, in uint8_t. */
  function AsBytes(ps: seq<nat>): (bs: seq<Byte>)
    ensures |bs| == |ps|
    ensures forall k :: 0 <= k < |ps| ==> bs[k] == ps[k] % 256
  {
    seq(|ps|, k requires 0 <= k < |ps| => ps[k] % 256)
  }

  /** For an operand of at most 256 labels no stored position wraps. */
  lemma ShortOperandPositions(op: seq<Label>, lab: Label)
    requires |op| <= 256
    ensures AsBytes(Occurrences(op, lab)) == Occurrences(op, lab)
  {
  }

  /** One more position of an operand extends its occurrence list. */
  lemma OccurrencesStep(op: seq<Label>, lab: Label, j: nat)
    requires j < |op|
    ensures AsBytes(Occurrences(op[..j + 1], lab)) ==
            AsBytes(Occurrences(op[..j], lab)) + if op[j] == lab then [j % 256] else []
  {
    assert op[..j + 1][..j] == op[..j];
  }

  /** getLabelPossInOperands: for every operand, the positions of the label
      in it, ascending. */
  method GetLabelPossInOperands(s: RawSubscript, lab: Label) returns (poss: seq<seq<Byte>>)
    ensures |poss| == |s.operands|
    ensures forall i :: 0 <= i < |poss| ==> poss[i] == AsBytes(Occurrences(s.operands[i], lab))
  {
    poss := [];
    var i := 0;
    while i < |s.operands|
      invariant 0 <= i <= |s.operands|
      invariant |poss| == i
      invariant forall k :: 0 <= k < i ==> poss[k] == AsBytes(Occurrences(s.operands[k], lab))
    {
      var op := s.operands[i];
      var inOperand: seq<Byte> := [];
      var labelPos := 0;
      while labelPos < |op|
        invariant 0 <= labelPos <= |op|
        invariant inOperand == AsBytes(Occurrences(op[..labelPos], lab))
      {
        OccurrencesStep(op, lab, labelPos);
        if op[labelPos] == lab {
          inOperand := inOperand + [labelPos % 256];
        }
        labelPos := labelPos + 1;
      }
      assert op[..labelPos] == op;
      poss := poss + [inOperand];
      i := i + 1;
    }
  }

  /** The first position of a label in a sequence that holds it. */
  function IndexOf(op: seq<Label>, lab: Label): (p: nat)
    requires lab in op
    ensures p < |op| && op[p] == lab
    ensures forall q :: 0 <= q < p ==> op[q] != lab
  {
    if op[0] == lab then 0 else 1 + IndexOf(op[1..], lab)
  }

  /** The first position of a label that occurs before pos is below pos. */
  lemma IndexOfPrefix(op: seq<Label>, lab: Label, pos: nat)
    requires pos <= |op| && lab in op[..pos]
    ensures IndexOf(op, lab) < pos
  {
    var q :| 0 <= q < pos && op[..pos][q] == lab;
    assert op[q] == lab;
  }

  /** A label that does not occur before pos first occurs at pos. */
  lemma FirstOccurrence(op: seq<Label>, pos: nat)
    requires pos < |op| && op[pos] !in LabelSet(op[..pos])
    ensures IndexOf(op, op[pos]) == pos
  {
  }

  /** The first position is the one before which the label does not occur. */
  lemma IndexOfAt(op: seq<Label>, lab: Label, p: nat)
    requires p < |op| && op[p] == lab
    requires forall q :: 0 <= q < p ==> op[q] != lab
    ensures IndexOf(op, lab) == p
  {
  }

  /** getLabelPossInResult: each result label mapped to its first position;
      inserting a label already mapped keeps the earlier position. */
  method GetLabelPossInResult(s: RawSubscript) returns (m: map<Label, Byte>)
    ensures m.Keys == LabelSet(s.result)
    ensures forall l :: l in m ==> m[l] == IndexOf(s.result, l) % 256
  {
    m := map[];
    var pos := 0;
    while pos < |s.result|
      invariant 0 <= pos <= |s.result|
      invariant m.Keys == LabelSet(s.result[..pos])
      invariant forall l :: l in m ==> l in s.result && m[l] == IndexOf(s.result, l) % 256
    {
      var l := s.result[pos];
      LabelSetStep(s.result, pos);
      if l !in m {
        FirstOccurrence(s.result, pos);
        m := m[l := pos % 256];
      }
      pos := pos + 1;
    }
    assert s.result[..pos] == s.result;
  }

  /** A label sequence without the given label, the others in order. */
  function Without(op: seq<Label>, lab: Label): seq<Label>
  {
    if op == [] then []
    else
      var init := Without(op[..|op| - 1], lab);
      if op[|op| - 1] == lab then init else init + [op[|op| - 1]]
  }

  /** Every label but lab keeps its multiplicity; lab is gone. */
  lemma {:induction false} WithoutContents(op: seq<Label>, lab: Label)
    ensures multiset(Without(op, lab)) == multiset(op)[lab := 0]
    ensures LabelSet(Without(op, lab)) == LabelSet(op) - {lab}
  {
    if op != [] {
      var init := op[..|op| - 1];
      var last := op[|op| - 1];
      WithoutContents(init, lab);
      assert op == init + [last];
    }
    WithoutLabels(op, lab);
  }

  /** The label set follows from the multiplicities. */
  lemma WithoutLabels(op: seq<Label>, lab: Label)
    requires multiset(Without(op, lab)) == multiset(op)[lab := 0]
    ensures LabelSet(Without(op, lab)) == LabelSet(op) - {lab}
  {
    var w := Without(op, lab);
    forall l
      ensures l in LabelSet(w) <==> l in LabelSet(op) && l != lab
    {
      assert l in w <==> multiset(w)[l] > 0;
      assert l in op <==> multiset(op)[l] > 0;
    }
  }

  /** The operands of removeLabel: the label deleted from each operand, and
      the operands left empty dropped. */
  function RemoveFrom(ops: seq<seq<Label>>, lab: Label): seq<seq<Label>>
  {
    if ops == [] then []
    else
      var init := RemoveFrom(ops[..|ops| - 1], lab);
      var w := Without(ops[|ops| - 1], lab);
      if w == [] then init else init + [w]
  }

  /** No operand is left empty, none is added, and the labels are those
      before but lab. */
  lemma {:induction false} RemoveFromContents(ops: seq<seq<Label>>, lab: Label)
    ensures |RemoveFrom(ops, lab)| <= |ops|
    ensures forall i :: 0 <= i < |RemoveFrom(ops, lab)| ==> RemoveFrom(ops, lab)[i] != []
    ensures OperandLabels(RemoveFrom(ops, lab)) == OperandLabels(ops) - {lab}
  {
    if ops != [] {
      var init := RemoveFrom(ops[..|ops| - 1], lab);
      RemoveFromContents(ops[..|ops| - 1], lab);
      var w := Without(ops[|ops| - 1], lab);
      WithoutContents(ops[|ops| - 1], lab);
      assert OperandLabels(ops) == OperandLabels(ops[..|ops| - 1]) + LabelSet(ops[|ops| - 1]);
      if w != [] {
        assert (init + [w])[..|init|] == init;
        assert OperandLabels(init + [w]) == OperandLabels(init) + LabelSet(w);
      } else {
        assert LabelSet(w) == {};
      }
    }
  }

  /** One more label of an operand. */
  lemma WithoutStep(op: seq<Label>, lab: Label, j: nat)
    requires j < |op|
    ensures Without(op[..j + 1], lab) == Without(op[..j], lab) + if op[j] != lab then [op[j]] else []
  {
    assert op[..j + 1][..j] == op[..j];
  }

  /** One more operand. */
  lemma RemoveFromStep(ops: seq<seq<Label>>, lab: Label, i: nat)
    requires i < |ops|
    ensures RemoveFrom(ops[..i + 1], lab) ==
            RemoveFrom(ops[..i], lab) + if Without(ops[i], lab) == [] then [] else [Without(ops[i], lab)]
  {
    assert ops[..i + 1][..i] == ops[..i];
  }

  /** The inner loop of removeLabel: the labels other than lab, in order. */
  method DropLabel(op: seq<Label>, lab: Label) returns (newOperand: seq<Label>)
    ensures newOperand == Without(op, lab)
  {
    newOperand := [];
    var j := 0;
    while j < |op|
      invariant 0 <= j <= |op|
      invariant newOperand == Without(op[..j], lab)
    {
      WithoutStep(op, lab, j);
      if op[j] != lab {
        newOperand := newOperand + [op[j]];
      }
      j := j + 1;
    }
    assert op[..j] == op;
  }

  /** removeLabel: the label must occur in some operand. Each operand loses
      the label, operands left empty are dropped, the result is kept. */
  method RemoveLabel(s: RawSubscript, lab: Label) returns (r: RawSubscript)
    requires lab in OperandLabels(s.operands)
    ensures r == RawSubscript(RemoveFrom(s.operands, lab), s.result)
    ensures OperandLabels(r.operands) == OperandLabels(s.operands) - {lab}
    ensures forall i :: 0 <= i < |r.operands| ==> r.operands[i] != []
  {
    var nextOperands: seq<seq<Label>> := [];
    var i := 0;
    while i < |s.operands|
      invariant 0 <= i <= |s.operands|
      invariant nextOperands == RemoveFrom(s.operands[..i], lab)
    {
      var newOperand := DropLabel(s.operands[i], lab);
      RemoveFromStep(s.operands, lab, i);
      if newOperand != [] {
        nextOperands := nextOperands + [newOperand];
      }
      i := i + 1;
    }
    assert s.operands[..i] == s.operands;
    RemoveFromContents(s.operands, lab);
    r := RawSubscript(nextOperands, s.result);
  }

  /** The operands joined with ','. */
  function Join(ops: seq<seq<char>>): seq<char>
  {
    if ops == [] then []
    else if |ops| == 1 then ops[0]
    else Join(ops[..|ops| - 1]) + [','] + ops[|ops| - 1]
  }

  /** The string form: the operands joined with ',', then "->", then the
      result labels. */
  function Format(s: RawSubscript): seq<char>
  {
    Join(s.operands) + ['-', '>'] + s.result
  }

  /** A string cut at every ',' (the partner of Join). */
  function Split(str: seq<char>): (pieces: seq<seq<char>>)
    ensures |pieces| >= 1
    ensures forall i :: 0 <= i < |pieces| ==> ',' !in pieces[i]
  {
    if str == [] then [[]]
    else
      var init := Split(str[..|str| - 1]);
      var c := str[|str| - 1];
      if c == ',' then init + [[]]
      else init[..|init| - 1] + [init[|init| - 1] + [c]]
  }

  /** Split of a string with one more character. */
  lemma SplitSnoc(str: seq<char>, c: char)
    ensures Split(str + [c]) ==
            if c == ',' then Split(str) + [[]]
            else Split(str)[..|Split(str)| - 1] + [Split(str)[|Split(str)| - 1] + [c]]
  {
    assert (str + [c])[..|str|] == str;
  }

  /** Extending the last piece of a concatenation extends the last piece
      of its right part. */
  lemma ExtendLastPiece(left: seq<seq<char>>, right: seq<seq<char>>, c: char)
    requires |right| >= 1
    ensures (left + right)[..|left + right| - 1] + [(left + right)[|left + right| - 1] + [c]] ==
            left + (right[..|right| - 1] + [right[|right| - 1] + [c]])
  {
    assert (left + right)[..|left + right| - 1] == left + right[..|right| - 1];
  }

  /** Cutting at a ',' splits the two sides separately. */
  lemma {:induction false} SplitAtComma(a: seq<char>, b: seq<char>)
    ensures Split(a + [','] + b) == Split(a) + Split(b)
  {
    if b == [] {
      assert a + [','] + b == a + [','];
      SplitSnoc(a, ',');
    } else {
      var b' := b[..|b| - 1];
      var c := b[|b| - 1];
      var whole := a + [','] + b';
      assert a + [','] + b == whole + [c];
      assert b == b' + [c];
      SplitAtComma(a, b');
      SplitSnoc(whole, c);
      SplitSnoc(b', c);
      var left, right := Split(a), Split(b');
      if c == ',' {
        calc {
          Split(whole + [c]);
          Split(whole) + [[]];
          (left + right) + [[]];
          left + (right + [[]]);
        }
      } else {
        ExtendLastPiece(left, right, c);
      }
    }
  }

  /** A piece without ',' is not cut. */
  lemma {:induction false} SplitWithoutComma(op: seq<char>)
    requires ',' !in op
    ensures Split(op) == [op]
  {
    if op != [] {
      SplitWithoutComma(op[..|op| - 1]);
      assert op[..|op| - 1] + [op[|op| - 1]] == op;
    }
  }

  /** Splitting recovers the joined operands when at least one operand is
      given and no label is ','. */
  lemma {:induction false} SplitJoin(ops: seq<seq<char>>)
    requires |ops| >= 1
    requires forall i :: 0 <= i < |ops| ==> ',' !in ops[i]
    ensures Split(Join(ops)) == ops
  {
    if |ops| == 1 {
      SplitWithoutComma(ops[0]);
    } else {
      var init := ops[..|ops| - 1];
      var last := ops[|ops| - 1];
      SplitJoin(init);
      SplitAtComma(Join(init), last);
      SplitWithoutComma(last);
      calc {
        Split(Join(ops));
        Split(Join(init) + [','] + last);
        Split(Join(init)) + Split(last);
        init + [last];
        ops;
      }
    }
  }

  /** The string built before operand n: the first n operands joined,
      and a ',' when more operands follow. */
  function JoinedBefore(ops: seq<seq<char>>, n: nat): seq<char>
    requires n <= |ops|
  {
    if n == 0 then [] else Join(ops[..n]) + if n < |ops| then [','] else []
  }

  /** Writing operand n and, unless it is the last, a ','. */
  lemma JoinedBeforeStep(ops: seq<seq<char>>, n: nat)
    requires n < |ops|
    ensures JoinedBefore(ops, n + 1) == JoinedBefore(ops, n) + ops[n] + if n + 1 < |ops| then [','] else []
  {
    assert ops[..n + 1][..n] == ops[..n];
  }

  /** Pushes the labels one by one onto the end of out. */
  method AppendLabels(out: seq<char>, labels: seq<Label>) returns (r: seq<char>)
    ensures r == out + labels
  {
    r := out;
    var j := 0;
    while j < |labels|
      invariant 0 <= j <= |labels|
      invariant r == out + labels[..j]
    {
      assert labels[..j + 1] == labels[..j] + [labels[j]];
      r := r + [labels[j]];
      j := j + 1;
    }
    assert labels[..j] == labels;
  }

  /** operator std::string: the labels of each operand, a ',' after every
      operand but the last, then "->" and the result labels. */
  method ToString(s: RawSubscript) returns (out: seq<char>)
    ensures out == Format(s)
  {
    var n := |s.operands|;
    out := [];
    var opPos := 0;
    while opPos < n
      invariant 0 <= opPos <= n
      invariant out == JoinedBefore(s.operands, opPos)
    {
      JoinedBeforeStep(s.operands, opPos);
      out := AppendLabels(out, s.operands[opPos]);
      if opPos != n - 1 {
        out := out + [','];
      }
      opPos := opPos + 1;
    }
    assert s.operands[..n] == s.operands;
    out := out + ['-', '>'];
    out := AppendLabels(out, s.result);
  }

  /** The string form gives back the operands when at least one operand is
      given and no label is ',' or '-': they come before the first '-'. */
  lemma FormatOperands(s: RawSubscript)
    requires |s.operands| >= 1
    requires forall i :: 0 <= i < |s.operands| ==> ',' !in s.operands[i] && '-' !in s.operands[i]
    ensures '-' in Format(s)
    ensures IndexOf(Format(s), '-') == |Join(s.operands)|
    ensures Split(Format(s)[..IndexOf(Format(s), '-')]) == s.operands
    ensures Format(s)[IndexOf(Format(s), '-') + 2..] == s.result
  {
    JoinLabels(s.operands);
    var f := Format(s);
    var d := |Join(s.operands)|;
    assert f[d] == '-';
    assert f[..d] == Join(s.operands);
    assert '-' !in Join(s.operands);
    forall q | 0 <= q < d
      ensures f[q] != '-'
    {
      assert f[q] == Join(s.operands)[q];
    }
    IndexOfAt(f, '-', d);
    assert f[d + 2..] == s.result;
    SplitJoin(s.operands);
  }

  /** Joining adds no label other than ','. */
  lemma {:induction false} JoinLabels(ops: seq<seq<char>>)
    ensures forall c :: c in Join(ops) ==> c == ',' || exists i :: 0 <= i < |ops| && c in ops[i]
  {
    if |ops| > 1 {
      var init := ops[..|ops| - 1];
      JoinLabels(init);
      forall c | c in Join(ops)
        ensures c == ',' || exists i :: 0 <= i < |ops| && c in ops[i]
      {
        if c in Join(init) && c != ',' {
          var i :| 0 <= i < |init| && c in init[i];
          assert ops[i] == init[i];
        }
      }
    } else if |ops| == 1 {
      assert forall c :: c in Join(ops) ==> c in ops[0];
    }
  }

  /** operator!=: true when the operand counts, the result sizes, an
      operand's size or any label differ. */
  method NotEqual(s: RawSubscript, t: RawSubscript) returns (different: bool)
    ensures different <==> s != t
  {
    if |s.operands| != |t.operands| {
      return true;
    }
    if |s.result| != |t.result| {
      return true;
    }
    var opPos := 0;
    while opPos < |s.operands|
      invariant 0 <= opPos <= |s.operands|
      invariant s.operands[..opPos] == t.operands[..opPos]
    {
      var op1 := s.operands[opPos];
      var op2 := t.operands[opPos];
      if |op1| != |op2| {
        return true;
      }
      var labelPos := 0;
      while labelPos < |op1|
        invariant 0 <= labelPos <= |op1|
        invariant op1[..labelPos] == op2[..labelPos]
      {
        if op1[labelPos] != op2[labelPos] {
          return true;
        }
        labelPos := labelPos + 1;
      }
      assert op1 == op1[..labelPos] == op2[..labelPos] == op2;
      assert s.operands[..opPos + 1] == s.operands[..opPos] + [op1];
      assert t.operands[..opPos + 1] == t.operands[..opPos] + [op2];
      opPos := opPos + 1;
    }
    assert s.operands == s.operands[..opPos] == t.operands[..opPos] == t.operands;
    var labelPos := 0;
    while labelPos < |s.result|
      invariant 0 <= labelPos <= |s.result|
      invariant s.result[..labelPos] == t.result[..labelPos]
    {
      if s.result[labelPos] != t.result[labelPos] {
        return true;
      }
      labelPos := labelPos + 1;
    }
    assert s.result == s.result[..labelPos] == t.result[..labelPos] == t.result;
    return false;
  }
}
