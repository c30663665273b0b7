/** Subscript (libs/einsum/src/dice/einsum/Subscript.hpp): an einsum
    subscript with the facts derived from its RawSubscript, the parser
    from_string and the classification of the operator it describes. */
module Subscripts {
  import Wrappers
  import Raw = RawSubscripts
  import UndirectedGraphs

  type Label = Raw.Label

  // ---------------------------------------------------------------------
  // from_string
  // ---------------------------------------------------------------------

  /** The characters of s other than ',' in order of first appearance. */
  function Firsts(s: seq<char>): seq<char>
  {
    if s == [] then []
    else
      var d := Firsts(s[..|s| - 1]);
      var c := s[|s| - 1];
      if c == ',' || c in d then d else d + [c]
  }

  /** The label handed out k-th: next_label starts at 'a' and is a char,
      so each increment wraps modulo 256. */
  function LabelOf(k: nat): Label
  {
    ((97 + k) % 256) as char
  }

  /** next_label++ on a char. */
  function NextLabel(l: Label): Label
    requires l as int < 256
  {
    ((l as int + 1) % 256) as char
  }

  lemma NextLabelOf(k: nat)
    ensures NextLabel(LabelOf(k)) == LabelOf(k + 1)
  {
  }

  /** char_mapping after the characters s of the operand part were read:
      a character not seen before gets the next label. */
  function Mapping(s: seq<char>): map<char, Label>
  {
    if s == [] then map[]
    else
      var init := s[..|s| - 1];
      var c := s[|s| - 1];
      if c == ',' || c in Mapping(init) then Mapping(init)
      else Mapping(init)[c := LabelOf(|Firsts(init)|)]
  }

  /** The mapped characters are the first appearances. */
  lemma {:induction false} MappingKeys(s: seq<char>)
    ensures Mapping(s).Keys == Raw.LabelSet(Firsts(s))
  {
    if s != [] {
      MappingKeys(s[..|s| - 1]);
    }
  }

  /** Looking a character up as char_mapping[c] does (a missing character
      would read as the default label '\0'). */
  function Lookup(m: map<char, Label>, c: char): Label
  {
    if c in m then m[c] else 0 as char
  }

  /** A sequence of characters renamed through m. */
  function Rename(m: map<char, Label>, cs: seq<char>): (r: seq<Label>)
    ensures |r| == |cs|
  {
    seq(|cs|, k requires 0 <= k < |cs| => Lookup(m, cs[k]))
  }

  /** Every piece renamed through m. */
  function RenameAll(m: map<char, Label>, ps: seq<seq<char>>): (r: seq<seq<Label>>)
    ensures |r| == |ps|
  {
    seq(|ps|, i requires 0 <= i < |ps| => Rename(m, ps[i]))
  }

  /** The operands completed in the operand part read so far. */
  function Done(s: seq<char>): seq<seq<char>>
  {
    Raw.Split(s)[..|Raw.Split(s)| - 1]
  }

  /** The operand being read. */
  function Cur(s: seq<char>): seq<char>
  {
    Raw.Split(s)[|Raw.Split(s)| - 1]
  }

  /** All characters of the pieces are mapped by m. */
  ghost predicate Covered(m: map<char, Label>, ps: seq<seq<char>>)
  {
    forall i, k :: 0 <= i < |ps| && 0 <= k < |ps[i]| ==> ps[i][k] in m
  }

  /** Reading one more character: the mapping only grows. */
  lemma MappingGrows(s: seq<char>, c: char)
    ensures forall x :: x in Mapping(s) ==> x in Mapping(s + [c]) && Mapping(s + [c])[x] == Mapping(s)[x]
    ensures c != ',' ==> c in Mapping(s + [c])
  {
    assert (s + [c])[..|s|] == s;
  }

  /** Every character read so far, other than ',', is mapped. */
  lemma {:induction false} SplitCovered(s: seq<char>)
    ensures Covered(Mapping(s), Raw.Split(s))
  {
    if s != [] {
      var init := s[..|s| - 1];
      var c := s[|s| - 1];
      assert s == init + [c];
      SplitCovered(init);
      MappingGrows(init, c);
      Raw.SplitSnoc(init, c);
    }
  }

  /** Renaming through a larger mapping that agrees on the covered
      characters changes nothing. */
  lemma RenameStable(m: map<char, Label>, m': map<char, Label>, ps: seq<seq<char>>)
    requires Covered(m, ps)
    requires forall x :: x in m ==> x in m' && m'[x] == m[x]
    ensures RenameAll(m', ps) == RenameAll(m, ps)
  {
    forall i | 0 <= i < |ps|
      ensures Rename(m', ps[i]) == Rename(m, ps[i])
    {
    }
  }

  /** The parser's state after one more character of the operand part. */
  lemma ReadStep(s: seq<char>, c: char)
    ensures Mapping(s + [c]) ==
            if c == ',' || c in Mapping(s) then Mapping(s) else Mapping(s)[c := LabelOf(|Firsts(s)|)]
    ensures |Firsts(s + [c])| == |Firsts(s)| + if c == ',' || c in Mapping(s) then 0 else 1
    ensures c == ',' ==> Cur(s + [c]) == []
    ensures c == ',' ==> RenameAll(Mapping(s + [c]), Done(s + [c])) ==
                         RenameAll(Mapping(s), Done(s)) + [Rename(Mapping(s), Cur(s))]
    ensures c != ',' ==> Cur(s + [c]) == Cur(s) + [c]
    ensures c != ',' ==> RenameAll(Mapping(s + [c]), Done(s + [c])) == RenameAll(Mapping(s), Done(s))
    ensures c != ',' ==> c in Mapping(s + [c]) &&
                         Rename(Mapping(s + [c]), Cur(s + [c])) == Rename(Mapping(s), Cur(s)) + [Mapping(s + [c])[c]]
  {
    assert (s + [c])[..|s|] == s;
    MappingKeys(s);
    MappingGrows(s, c);
    SplitCovered(s);
    Raw.SplitSnoc(s, c);
    var m, m' := Mapping(s), Mapping(s + [c]);
    var p := Raw.Split(s);
    RenameStable(m, m', p);
    assert Done(s) == p[..|p| - 1];
    assert RenameAll(m, Done(s)) == RenameAll(m, p)[..|p| - 1];
    assert RenameAll(m', Done(s)) == RenameAll(m', p)[..|p| - 1];
    assert Rename(m', Cur(s)) == RenameAll(m', p)[|p| - 1];
    if c == ',' {
      assert Done(s + [c]) == p;
      assert RenameAll(m', p) == RenameAll(m, p)[..|p| - 1] + [Rename(m, Cur(s))];
    } else {
      assert Rename(m', Cur(s) + [c]) == Rename(m', Cur(s)) + [m'[c]];
    }
  }

  /** The operand part of a subscript string: everything before the first '-'. */
  function OperandPart(str: seq<char>): seq<char>
    requires '-' in str
  {
    str[..Raw.IndexOf(str, '-')]
  }

  /** The result part: everything after the "->" that follows the operand part. */
  function ResultPart(str: seq<char>): seq<char>
    requires '-' in str && Raw.IndexOf(str, '-') + 2 <= |str|
  {
    str[Raw.IndexOf(str, '-') + 2..]
  }

  /** The operands from_string reads from the operand part p: p cut at every
      ',', an empty piece after the last ',' dropped, and one empty operand
      when nothing is left; every character renamed by Mapping(p). */
  function ParsedOperands(p: seq<char>): seq<seq<Label>>
  {
    var kept := if Cur(p) == [] then Done(p) else Raw.Split(p);
    if kept == [] then [[]] else RenameAll(Mapping(p), kept)
  }

  /** What from_string returns for a well-formed string. */
  function Parse(str: seq<char>): Raw.RawSubscript
    requires '-' in str && Raw.IndexOf(str, '-') + 2 <= |str|
  {
    var p := OperandPart(str);
    Raw.RawSubscript(ParsedOperands(p), Rename(Mapping(p), ResultPart(str)))
  }

  /** The variables of from_string while it reads the operand part. */
  datatype ScanState = ScanState(mapping: map<char, Label>, nextLabel: Label,
                                 operands: seq<seq<Label>>, operand: seq<Label>)

  /** The variables of from_string after it read s, one character at a time:
      ',' closes the operand, any other character is renamed (and gets the
      next label when it is new) and pushed onto the operand. */
  function Scan(s: seq<char>): ScanState
  {
    if s == [] then ScanState(map[], 'a', [], [])
    else
      var st := Scan(s[..|s| - 1]);
      var c := s[|s| - 1];
      if c == ',' then st.(operands := st.operands + [st.operand], operand := [])
      else if c in st.mapping then st.(operand := st.operand + [st.mapping[c]])
      else if st.nextLabel as int < 256 then
        st.(mapping := st.mapping[c := st.nextLabel], nextLabel := NextLabel(st.nextLabel),
            operand := st.operand + [st.nextLabel])
      else st
  }

  /** What the scan holds: the mapping of first appearances, the completed
      operands and the current one, renamed. */
  lemma {:induction false} ScanMeaning(s: seq<char>)
    ensures Scan(s) == ScanState(Mapping(s), LabelOf(|Firsts(s)|),
                                 RenameAll(Mapping(s), Done(s)), Rename(Mapping(s), Cur(s)))
  {
    if s != [] {
      var init := s[..|s| - 1];
      var c := s[|s| - 1];
      assert s == init + [c];
      ScanMeaning(init);
      ReadStep(init, c);
      if c != ',' && c !in Mapping(init) {
        NextLabelOf(|Firsts(init)|);
      }
    }
  }

  /** The operands once the operand part p is read: the completed ones, the
      one being read unless it is empty, and one empty operand if there is
      none. */
  lemma ScanOperands(p: seq<char>)
    ensures var st := Scan(p);
            var ops := if st.operand == [] then st.operands else st.operands + [st.operand];
            ParsedOperands(p) == if ops == [] then [[]] else ops
  {
    ScanMeaning(p);
    var m := Mapping(p);
    assert Raw.Split(p) == Done(p) + [Cur(p)];
    assert RenameAll(m, Done(p) + [Cur(p)]) == RenameAll(m, Done(p)) + [Rename(m, Cur(p))];
  }

  /** The operand loop of from_string: the scan of the operand part, closed
      as from_string closes it, and the position of the first '-'. */
  method ReadOperands(str: seq<char>) returns (operands: seq<seq<Label>>, mapping: map<char, Label>, i: nat)
    requires '-' in str
    ensures i == Raw.IndexOf(str, '-')
    ensures mapping == Mapping(OperandPart(str))
    ensures operands == ParsedOperands(OperandPart(str))
  {
    ghost var dash := Raw.IndexOf(str, '-');
    i := 0;
    mapping := map[];
    var nextLabel: Label := 'a';
    operands := [];
    while str[i] != '-'
      invariant i <= dash
      invariant ScanState(mapping, nextLabel, operands, []) == Scan(str[..i])
      invariant nextLabel as int < 256
      decreases dash - i
    {
      var operand: seq<Label> := [];
      ghost var start := i;
      while str[i] != ',' && str[i] != '-'
        invariant start <= i <= dash
        invariant ScanState(mapping, nextLabel, operands, operand) == Scan(str[..i])
        invariant nextLabel as int < 256
        invariant operand != [] || i == start
        decreases dash - i
      {
        var c := str[i];
        assert str[..i + 1][..i] == str[..i];
        if c !in mapping {
          mapping := mapping[c := nextLabel];
          nextLabel := NextLabel(nextLabel);
        }
        operand := operand + [mapping[c]];
        i := i + 1;
      }
      if str[i] == '-' {
        operands := operands + [operand];
        break;
      }
      assert str[..i + 1][..i] == str[..i];
      operands := operands + [operand];
      i := i + 1;
    }
    assert i == dash;
    ScanMeaning(str[..i]);
    ScanOperands(str[..i]);
    if operands == [] {
      operands := [[]];
    }
  }

  /** from_string: reads operands up to the first '-', skips the two
      characters of "->" and renames the result labels. The string must
      contain '-' followed by one more character, and every result
      character must occur in some operand (the assertion in the loop). */
  method FromString(str: seq<char>) returns (r: Raw.RawSubscript)
    requires '-' in str && Raw.IndexOf(str, '-') + 2 <= |str|
    requires forall k :: 0 <= k < |ResultPart(str)| ==> ResultPart(str)[k] in Mapping(OperandPart(str))
    ensures r == Parse(str)
  {
    ghost var dash := Raw.IndexOf(str, '-');
    var operands, mapping, i := ReadOperands(str);
    i := i + 2;
    var result: seq<Label> := [];
    ghost var res := ResultPart(str);
    while i < |str|
      invariant dash + 2 <= i <= |str|
      invariant result == Rename(mapping, res[..i - dash - 2])
    {
      assert res[..i - dash - 2 + 1] == res[..i - dash - 2] + [str[i]];
      result := result + [mapping[str[i]]];
      i := i + 1;
    }
    assert res[..i - dash - 2] == res;
    r := Raw.RawSubscript(operands, result);
  }

  /** No label occurs twice. */
  predicate Distinct(op: seq<Label>)
  {
    forall i, j :: 0 <= i < j < |op| ==> op[i] != op[j]
  }

  /** A label sequence has at most as many distinct labels as entries, and
      exactly as many iff no label repeats: the test calcState uses to rule
      out a diagonal. */
  lemma {:induction false} DistinctCount(op: seq<Label>)
    ensures |Raw.LabelSet(op)| <= |op|
    ensures |Raw.LabelSet(op)| == |op| <==> Distinct(op)
  {
    if op != [] {
      var init := op[..|op| - 1];
      var l := op[|op| - 1];
      assert op == init + [l];
      DistinctCount(init);
      Raw.LabelSetSnoc(init, l);
      if l in init {
        var k :| 0 <= k < |init| && init[k] == l;
        assert op[k] == op[|op| - 1];
        assert Raw.LabelSet(op) == Raw.LabelSet(init);
      } else {
        assert l !in Raw.LabelSet(init);
        assert Distinct(op) <==> Distinct(init) by {
          if Distinct(init) {
            forall i, j | 0 <= i < j < |op|
              ensures op[i] != op[j]
            {
              if j == |op| - 1 {
                assert op[i] == init[i];
              } else {
                assert op[i] == init[i] && op[j] == init[j];
              }
            }
          }
          if Distinct(op) {
            forall i, j | 0 <= i < j < |init|
              ensures init[i] != init[j]
            {
              assert op[i] == init[i] && op[j] == init[j];
            }
          }
        }
      }
    }
  }

  /** Fewer than n character values exist below n. */
  lemma {:induction false} CardBelow(cs: set<char>, n: nat)
    requires n <= 256
    requires forall c :: c in cs ==> c as int < n
    ensures |cs| <= n
  {
    if n == 0 {
      assert cs == {} by {
        forall c | c in cs
          ensures false
        {
        }
      }
    } else {
      var top := (n - 1) as char;
      var rest := cs - {top};
      forall c | c in rest
        ensures c as int < n - 1
      {
        assert c != top;
      }
      CardBelow(rest, n - 1);
      assert cs <= rest + {top};
    }
  }

  /** The first appearances are distinct and are the characters read, ','
      aside. */
  lemma {:induction false} FirstsMembers(s: seq<char>)
    ensures Distinct(Firsts(s))
    ensures forall c :: c in Firsts(s) <==> c in s && c != ','
  {
    if s != [] {
      var init := s[..|s| - 1];
      var c := s[|s| - 1];
      assert s == init + [c];
      FirstsMembers(init);
      var d := Firsts(init);
      if c != ',' && c !in d {
        assert Firsts(s) == d + [c];
        forall i, j | 0 <= i < j < |d| + 1
          ensures (d + [c])[i] != (d + [c])[j]
        {
          if j == |d| {
            assert (d + [c])[i] == d[i];
          } else {
            assert (d + [c])[i] == d[i] && (d + [c])[j] == d[j];
          }
        }
      }
    }
  }

  /** A string that starts with a character other than ',' has it as its
      first appearance. */
  lemma {:induction false} FirstsHead(s: seq<char>)
    requires s != [] && s[0] != ','
    ensures Firsts(s) != [] && Firsts(s)[0] == s[0]
  {
    var init := s[..|s| - 1];
    if init == [] {
      assert s == [s[0]];
    } else {
      FirstsHead(init);
    }
  }

  /** from_string renames in order of first appearance: a character c of
      the operand part other than ',' is mapped, and if it is the k-th to
      appear for the first time it gets the k-th label 'a', 'b', ... */
  lemma {:induction false} FirstAppearanceLabel(s: seq<char>, c: char)
    requires c in s && c != ','
    ensures c in Firsts(s) && c in Mapping(s)
    ensures Mapping(s)[c] == LabelOf(Raw.IndexOf(Firsts(s), c))
  {
    MappingKeys(s);
    FirstsMembers(s);
    var init := s[..|s| - 1];
    var x := s[|s| - 1];
    assert s == init + [x];
    MappingKeys(init);
    FirstsMembers(init);
    var d := Firsts(init);
    if c in init {
      FirstAppearanceLabel(init, c);
      if x != ',' && x !in Mapping(init) {
        assert Firsts(s) == d + [x];
        Raw.IndexOfAt(d + [x], c, Raw.IndexOf(d, c));
      }
    } else {
      assert c == x && c !in Mapping(init);
      assert Firsts(s) == d + [c];
      Raw.IndexOfAt(d + [c], c, |d|);
    }
  }

  /** Only characters of the operand part other than ',' are mapped. */
  lemma MappedChars(s: seq<char>)
    ensures forall c :: c in Mapping(s) <==> c in s && c != ','
  {
    MappingKeys(s);
    FirstsMembers(s);
  }

  /** The first character of a subscript string becomes 'a'. */
  lemma FirstLabelIsA(s: seq<char>)
    requires s != [] && s[0] != ','
    ensures s[0] in Mapping(s) && Mapping(s)[s[0]] == 'a'
  {
    FirstAppearanceLabel(s, s[0]);
    FirstsHead(s);
    Raw.IndexOfAt(Firsts(s), s[0], 0);
  }

  /** Distinct label numbers below 256 are distinct labels. */
  lemma LabelOfInjective(i: nat, j: nat)
    requires i < 256 && j < 256 && i != j
    ensures LabelOf(i) != LabelOf(j)
  {
  }

  /** For a string of bytes, from_string gives distinct characters distinct
      labels: at most 256 characters are new, so next_label never wraps
      onto a label already handed out. */
  lemma MappingInjective(s: seq<char>)
    requires forall k :: 0 <= k < |s| ==> s[k] as int < 256
    ensures forall x, y :: x in Mapping(s) && y in Mapping(s) && x != y ==> Mapping(s)[x] != Mapping(s)[y]
  {
    MappedChars(s);
    FirstsMembers(s);
    var d := Firsts(s);
    DistinctCount(d);
    CardBelow(Raw.LabelSet(d), 256);
    forall x, y | x in Mapping(s) && y in Mapping(s) && x != y
      ensures Mapping(s)[x] != Mapping(s)[y]
    {
      FirstAppearanceLabel(s, x);
      FirstAppearanceLabel(s, y);
      LabelOfInjective(Raw.IndexOf(d, x), Raw.IndexOf(d, y));
    }
  }

  /** An empty operand part gives one empty operand. */
  lemma NoOperands(str: seq<char>)
    requires '-' in str && Raw.IndexOf(str, '-') + 2 <= |str|
    requires Raw.IndexOf(str, '-') == 0
    ensures Parse(str).operands == [[]]
  {
    assert OperandPart(str) == [];
  }

  /** The operands read from an operand part that cuts into ops: all of
      them, renamed, when the last is non-empty or the only one. */
  lemma ParsedSplit(p: seq<char>, ops: seq<seq<char>>)
    requires Raw.Split(p) == ops
    requires ops[|ops| - 1] != [] || |ops| == 1
    ensures ParsedOperands(p) == RenameAll(Mapping(p), ops)
  {
    if Cur(p) == [] {
      assert ops == [[]] && Done(p) == [];
      assert RenameAll(Mapping(p), ops) == [[]];
    }
  }

  /** Parsing the string form of a subscript gives the subscript back,
      renamed through the mapping of its operand part, provided no label is
      ',' or '-' and the last operand is non-empty (an empty last operand
      after a ',' is dropped). */
  lemma ParseFormat(s: Raw.RawSubscript)
    requires |s.operands| >= 1
    requires forall i :: 0 <= i < |s.operands| ==> ',' !in s.operands[i] && '-' !in s.operands[i]
    requires s.operands[|s.operands| - 1] != [] || |s.operands| == 1
    ensures '-' in Raw.Format(s) && Raw.IndexOf(Raw.Format(s), '-') + 2 <= |Raw.Format(s)|
    ensures OperandPart(Raw.Format(s)) == Raw.Join(s.operands)
    ensures var m := Mapping(Raw.Join(s.operands));
            Parse(Raw.Format(s)) == Raw.RawSubscript(RenameAll(m, s.operands), Rename(m, s.result))
  {
    Raw.FormatOperands(s);
    var f := Raw.Format(s);
    assert OperandPart(f) == Raw.Join(s.operands) by {
      assert f == Raw.Join(s.operands) + (['-', '>'] + s.result);
    }
    ParsedSplit(OperandPart(f), s.operands);
  }

  // ---------------------------------------------------------------------
  // Operator classification and derived label facts
  // ---------------------------------------------------------------------

  /** Subscript::Type: the operator an einsum subscript describes. */
  datatype Type = None | Join | Cartesian | Resolve | Count | EntryGenerator | CarthesianMapping

  /** The operator a subscript describes, given the number of connected
      components of its label dependency graph: no operand generates one
      entry; a single operand without a repeated label resolves when all its
      labels are result labels and counts when none is; several operands
      that fall apart into several components form a Cartesian product;
      everything else is a join. */
  function StateOf(raw: Raw.RawSubscript, components: nat): Type
  {
    if |raw.operands| == 0 then EntryGenerator
    else if |raw.operands| == 1 then
      var op := raw.operands[0];
      if !Distinct(op) then Join
      else if Raw.LabelSet(op) <= Raw.LabelSet(raw.result) then Resolve
      else if Raw.LabelSet(op) !! Raw.LabelSet(raw.result) then Count
      else Join
    else if components > 1 then Cartesian
    else Join
  }

  /** calcState: decides the single-operand case by comparing the label
      count with the size of the label set and with two flags set over the
      label set. */
  method CalcState(raw: Raw.RawSubscript, operandsLabelSet: set<Label>, resultLabelSet: set<Label>,
                   connectedComponents: seq<set<Label>>) returns (t: Type)
    requires operandsLabelSet == Raw.OperandLabels(raw.operands)
    requires resultLabelSet == Raw.LabelSet(raw.result)
    ensures t == StateOf(raw, |connectedComponents|)
  {
    if |raw.operands| == 0 {
      return EntryGenerator;
    } else if |raw.operands| == 1 {
      var op := raw.operands[0];
      assert raw.operands[..0] == [];
      assert operandsLabelSet == Raw.LabelSet(op);
      DistinctCount(op);
      if |op| == |operandsLabelSet| {
        var allInResult, noneInResult := true, true;
        var rest := operandsLabelSet;
        while rest != {}
          invariant rest <= operandsLabelSet
          invariant allInResult <==> operandsLabelSet - rest <= resultLabelSet
          invariant noneInResult <==> (operandsLabelSet - rest) !! resultLabelSet
          decreases |rest|
        {
          var l :| l in rest;
          if l in resultLabelSet {
            noneInResult := false;
          } else {
            allInResult := false;
          }
          rest := rest - {l};
        }
        if allInResult {
          return Resolve;
        } else if noneInResult {
          return Count;
        }
      }
    } else if |connectedComponents| > 1 {
      return Cartesian;
    }
    return Join;
  }

  /** calcAllResultDone: no result label is an operand label. */
  function CalcAllResultDone(operandLabels: set<Label>, resultLabels: set<Label>): (b: bool)
    ensures b <==> resultLabels !! operandLabels
  {
    forall l :: l in resultLabels ==> l !in operandLabels
  }

  /** The positions of the result whose label is one of labels, ascending. */
  function UsedPositions(result: seq<Label>, labels: set<Label>): (ps: seq<nat>)
    ensures forall k :: 0 <= k < |ps| ==> ps[k] < |result| && result[ps[k]] in labels
    ensures forall k, m :: 0 <= k < m < |ps| ==> ps[k] < ps[m]
    ensures forall q :: 0 <= q < |result| && result[q] in labels ==> q in ps
  {
    if result == [] then []
    else
      var init := UsedPositions(result[..|result| - 1], labels);
      if result[|result| - 1] in labels then init + [|result| - 1] else init
  }

  lemma UsedPositionsStep(result: seq<Label>, labels: set<Label>, i: nat)
    requires i < |result|
    ensures Raw.AsBytes(UsedPositions(result[..i + 1], labels)) ==
            Raw.AsBytes(UsedPositions(result[..i], labels)) + if result[i] in labels then [i % 256] else []
  {
    assert result[..i + 1][..i] == result[..i];
  }

  /** used_result_poss_: the positions of the result labels that occur in
      an operand, stored as uint8. */
  method UsedResultPoss(raw: Raw.RawSubscript, operandsLabelSet: set<Label>) returns (poss: seq<Raw.Byte>)
    ensures poss == Raw.AsBytes(UsedPositions(raw.result, operandsLabelSet))
  {
    poss := [];
    for i := 0 to |raw.result|
      invariant poss == Raw.AsBytes(UsedPositions(raw.result[..i], operandsLabelSet))
    {
      UsedPositionsStep(raw.result, operandsLabelSet, i);
      if raw.result[i] in operandsLabelSet {
        poss := poss + [i % 256];
      }
    }
    assert raw.result[..|raw.result|] == raw.result;
  }

  /** all_result_done holds exactly when no result position is used. */
  lemma AllResultDoneIffNoneUsed(raw: Raw.RawSubscript)
    ensures CalcAllResultDone(Raw.OperandLabels(raw.operands), Raw.LabelSet(raw.result)) <==>
            UsedPositions(raw.result, Raw.OperandLabels(raw.operands)) == []
  {
    var used := UsedPositions(raw.result, Raw.OperandLabels(raw.operands));
    if used != [] {
      assert raw.result[used[0]] in Raw.LabelSet(raw.result);
    }
    if !CalcAllResultDone(Raw.OperandLabels(raw.operands), Raw.LabelSet(raw.result)) {
      var l :| l in Raw.LabelSet(raw.result) && l in Raw.OperandLabels(raw.operands);
      var q :| 0 <= q < |raw.result| && raw.result[q] == l;
      assert q in used;
    }
  }

  /** No more positions are used than the result has, and all of them iff
      every result label occurs in an operand. */
  lemma {:induction false} UsedPositionsCount(result: seq<Label>, labels: set<Label>)
    ensures |UsedPositions(result, labels)| <= |result|
    ensures |UsedPositions(result, labels)| == |result| <==> Raw.LabelSet(result) <= labels
  {
    if result != [] {
      var init := result[..|result| - 1];
      UsedPositionsCount(init, labels);
      assert result == init + [result[|result| - 1]];
      assert Raw.LabelSet(result) == Raw.LabelSet(init) + {result[|result| - 1]};
    }
  }

  /** valid(): every result label occurs in some operand. */
  function IsValid(raw: Raw.RawSubscript, operandsLabelSet: set<Label>): (b: bool)
    requires operandsLabelSet == Raw.OperandLabels(raw.operands)
    ensures b <==> forall k :: 0 <= k < |raw.result| ==>
                     exists i :: 0 <= i < |raw.operands| && raw.result[k] in raw.operands[i]
  {
    Raw.OperandLabelsUnion(raw.operands);
    forall k :: 0 <= k < |raw.result| ==> raw.result[k] in operandsLabelSet
  }

  /** A valid subscript uses every result position, and one with a result
      label therefore is not all_result_done. */
  lemma ValidUsesAllPositions(raw: Raw.RawSubscript)
    ensures IsValid(raw, Raw.OperandLabels(raw.operands)) <==>
            |UsedPositions(raw.result, Raw.OperandLabels(raw.operands))| == |raw.result|
    ensures IsValid(raw, Raw.OperandLabels(raw.operands)) && raw.result != [] ==>
            !CalcAllResultDone(Raw.OperandLabels(raw.operands), Raw.LabelSet(raw.result))
  {
    UsedPositionsCount(raw.result, Raw.OperandLabels(raw.operands));
    AllResultDoneIffNoneUsed(raw);
  }

  // ---------------------------------------------------------------------
  // poss_of_operands_with_labels and the lonely non-result labels
  // ---------------------------------------------------------------------

  /** n copies of pos. */
  function Repeat(pos: nat, n: nat): (r: seq<nat>)
    ensures |r| == n
    ensures forall k :: 0 <= k < n ==> r[k] == pos
  {
    if n == 0 then [] else Repeat(pos, n - 1) + [pos]
  }

  /** The operand positions of label l, one entry per occurrence, ascending. */
  function OperandPositions(ops: seq<seq<Label>>, l: Label): (ps: seq<nat>)
    ensures forall k :: 0 <= k < |ps| ==> ps[k] < |ops| && l in ops[ps[k]]
    ensures forall k, m :: 0 <= k < m < |ps| ==> ps[k] <= ps[m]
  {
    if ops == [] then []
    else
      var init := OperandPositions(ops[..|ops| - 1], l);
      var last := ops[|ops| - 1];
      assert forall k :: 0 <= k < |init| ==> ops[init[k]] == ops[..|ops| - 1][init[k]];
      init + Repeat(|ops| - 1, multiset(last)[l])
  }

  /** Operand i occurs in the list of l as often as l occurs in operand i. */
  lemma {:induction false} OperandPositionsCount(ops: seq<seq<Label>>, l: Label, i: nat)
    requires i < |ops|
    ensures multiset(OperandPositions(ops, l))[i] == multiset(ops[i])[l]
  {
    var init := ops[..|ops| - 1];
    var n := multiset(ops[|ops| - 1])[l];
    var r := Repeat(|ops| - 1, n);
    assert multiset(r) == multiset{} [|ops| - 1 := n] by {
      RepeatMultiset(|ops| - 1, n);
    }
    assert OperandPositions(ops, l) == OperandPositions(init, l) + r;
    if i < |init| {
      OperandPositionsCount(init, l, i);
      assert ops[i] == init[i];
    } else {
      assert i !in OperandPositions(init, l);
    }
  }

  lemma {:induction false} RepeatMultiset(pos: nat, n: nat)
    ensures multiset(Repeat(pos, n)) == multiset{} [pos := n]
  {
    if n > 0 {
      RepeatMultiset(pos, n - 1);
    }
  }

  /** The number of occurrences of l over all operands. */
  function TotalCount(ops: seq<seq<Label>>, l: Label): nat
  {
    if ops == [] then 0 else TotalCount(ops[..|ops| - 1], l) + multiset(ops[|ops| - 1])[l]
  }

  lemma {:induction false} OperandPositionsLength(ops: seq<seq<Label>>, l: Label)
    ensures |OperandPositions(ops, l)| == TotalCount(ops, l)
  {
    if ops != [] {
      OperandPositionsLength(ops[..|ops| - 1], l);
    }
  }

  /** poss_of_operands_with_labels[label], which inserts an empty list for
      a label not yet present. */
  function Get(m: map<Label, seq<Raw.Byte>>, l: Label): seq<Raw.Byte>
  {
    if l in m then m[l] else []
  }

  /** The inner loop: pos pushed once for every label of op. */
  function PushAll(m: map<Label, seq<Raw.Byte>>, op: seq<Label>, pos: nat): map<Label, seq<Raw.Byte>>
  {
    if op == [] then m
    else
      var m' := PushAll(m, op[..|op| - 1], pos);
      var l := op[|op| - 1];
      m'[l := Get(m', l) + [pos % 256]]
  }

  /** The map after the operands ops. */
  function PossMap(ops: seq<seq<Label>>): map<Label, seq<Raw.Byte>>
  {
    if ops == [] then map[] else PushAll(PossMap(ops[..|ops| - 1]), ops[|ops| - 1], |ops| - 1)
  }

  lemma AsBytesAppend(a: seq<nat>, b: seq<nat>)
    ensures Raw.AsBytes(a + b) == Raw.AsBytes(a) + Raw.AsBytes(b)
  {
  }

  /** The inner loop adds the labels of op to the keys. */
  lemma {:induction false} PushAllKeys(m: map<Label, seq<Raw.Byte>>, op: seq<Label>, pos: nat)
    ensures PushAll(m, op, pos).Keys == m.Keys + Raw.LabelSet(op)
  {
    if op != [] {
      var init := op[..|op| - 1];
      var x := op[|op| - 1];
      assert op == init + [x];
      PushAllKeys(m, init, pos);
      Raw.LabelSetSnoc(init, x);
    }
  }

  /** The inner loop pushes pos once per occurrence of l in op. */
  lemma {:induction false} PushAllMeaning(m: map<Label, seq<Raw.Byte>>, op: seq<Label>, pos: nat, l: Label)
    ensures Get(PushAll(m, op, pos), l) == Get(m, l) + Raw.AsBytes(Repeat(pos, multiset(op)[l]))
  {
    if op != [] {
      var init := op[..|op| - 1];
      var x := op[|op| - 1];
      assert op == init + [x];
      PushAllMeaning(m, init, pos, l);
      var n := multiset(init)[l];
      if x == l {
        assert multiset(op)[l] == n + 1;
        assert Repeat(pos, n + 1) == Repeat(pos, n) + [pos];
        AsBytesAppend(Repeat(pos, n), [pos]);
      } else {
        assert multiset(op)[l] == n;
      }
    }
  }

  /** poss_of_operands_with_labels maps exactly the operand labels, each to
      its operand positions, one per occurrence, stored as uint8. */
  lemma {:induction false} PossMapMeaning(ops: seq<seq<Label>>, l: Label)
    ensures PossMap(ops).Keys == Raw.OperandLabels(ops)
    ensures Get(PossMap(ops), l) == Raw.AsBytes(OperandPositions(ops, l))
  {
    if ops != [] {
      var init := ops[..|ops| - 1];
      var last := ops[|ops| - 1];
      PossMapMeaning(init, l);
      PushAllKeys(PossMap(init), last, |ops| - 1);
      PushAllMeaning(PossMap(init), last, |ops| - 1, l);
      AsBytesAppend(OperandPositions(init, l), Repeat(|ops| - 1, multiset(last)[l]));
    }
  }

  lemma PushAllStep(m: map<Label, seq<Raw.Byte>>, op: seq<Label>, pos: nat, j: nat)
    requires j < |op|
    ensures PushAll(m, op[..j + 1], pos) == PushAll(m, op[..j], pos)[op[j] := Get(PushAll(m, op[..j], pos), op[j]) + [pos % 256]]
  {
    assert op[..j + 1][..j] == op[..j];
  }

  /** The nested loop of the constructor filling poss_of_operands_with_labels. */
  method PossOfOperandsWithLabels(raw: Raw.RawSubscript) returns (m: map<Label, seq<Raw.Byte>>)
    ensures m == PossMap(raw.operands)
  {
    m := map[];
    for opPos := 0 to |raw.operands|
      invariant m == PossMap(raw.operands[..opPos])
    {
      ghost var before := m;
      var op := raw.operands[opPos];
      for j := 0 to |op|
        invariant m == PushAll(before, op[..j], opPos)
      {
        PushAllStep(before, op, opPos, j);
        var l := op[j];
        m := m[l := Get(m, l) + [opPos % 256]];
      }
      assert op[..|op|] == op;
      assert raw.operands[..opPos + 1][..opPos] == raw.operands[..opPos];
    }
    assert raw.operands[..|raw.operands|] == raw.operands;
  }

  lemma ByteUnchanged(i: nat)
    requires i < 256
    ensures i % 256 == i
  {
  }

  /** A label that occurs exactly once has one operand position, and (for
      at most 256 operands) that operand holds it once. */
  lemma SingleOccurrence(ops: seq<seq<Label>>, l: Label)
    ensures |Get(PossMap(ops), l)| == TotalCount(ops, l)
    ensures |Get(PossMap(ops), l)| == 1 ==> Get(PossMap(ops), l)[0] < |ops|
    ensures TotalCount(ops, l) == 1 && |ops| <= 256 ==> multiset(ops[Get(PossMap(ops), l)[0]])[l] == 1
  {
    PossMapMeaning(ops, l);
    OperandPositionsLength(ops, l);
    var ps := OperandPositions(ops, l);
    if |ps| == 1 {
      var i := ps[0];
      assert ps == [i];
      OperandPositionsCount(ops, l, i);
      assert Get(PossMap(ops), l)[0] == i % 256;
      assert i < |ops|;
      if |ops| <= 256 {
        ByteUnchanged(i);
      }
    }
  }

  /** lonely_non_result_labels: the operand labels that are not result
      labels and whose single operand position names an operand holding
      them once. Every label reported is absent from the result and occurs
      exactly once overall; with at most 256 operands every such label is
      reported. */
  method LonelyNonResultLabels(raw: Raw.RawSubscript, operandsLabelSet: set<Label>, resultLabelSet: set<Label>,
                               poss: map<Label, seq<Raw.Byte>>) returns (lonely: set<Label>)
    requires operandsLabelSet == Raw.OperandLabels(raw.operands)
    requires resultLabelSet == Raw.LabelSet(raw.result)
    requires poss == PossMap(raw.operands)
    ensures lonely <= operandsLabelSet
    ensures forall l :: l in lonely ==> l !in raw.result && TotalCount(raw.operands, l) == 1
    ensures |raw.operands| <= 256 ==>
              forall l :: l in operandsLabelSet && l !in raw.result && TotalCount(raw.operands, l) == 1 ==> l in lonely
  {
    lonely := {};
    var rest := operandsLabelSet;
    while rest != {}
      invariant rest <= operandsLabelSet && lonely <= operandsLabelSet - rest
      invariant forall l :: l in lonely ==> l !in raw.result && TotalCount(raw.operands, l) == 1
      invariant |raw.operands| <= 256 ==>
                  forall l :: l in operandsLabelSet - rest && l !in raw.result && TotalCount(raw.operands, l) == 1 ==> l in lonely
      decreases |rest|
    {
      var l :| l in rest;
      SingleOccurrence(raw.operands, l);
      if l !in resultLabelSet {
        var opPoss := Get(poss, l);
        if |opPoss| == 1 {
          var op := raw.operands[opPoss[0]];
          if multiset(op)[l] == 1 {
            lonely := lonely + {l};
          }
        }
      }
      rest := rest - {l};
    }
  }

  /** A label the source counts as lonely occurs exactly once and is not a
      result label; it occurs in a single operand. */
  lemma LonelyOperand(ops: seq<seq<Label>>, l: Label)
    requires TotalCount(ops, l) == 1
    ensures exists i :: 0 <= i < |ops| && multiset(ops[i])[l] == 1 &&
                        forall j :: 0 <= j < |ops| && j != i ==> l !in ops[j]
  {
    OperandPositionsLength(ops, l);
    var ps := OperandPositions(ops, l);
    var i := ps[0];
    assert ps == [i];
    OperandPositionsCount(ops, l, i);
    forall j | 0 <= j < |ops| && j != i
      ensures l !in ops[j]
    {
      OperandPositionsCount(ops, l, j);
      assert multiset(ps)[j] == 0;
    }
  }

  // ---------------------------------------------------------------------
  // The label dependency graph
  // ---------------------------------------------------------------------

  /** The labels that share an operand of ops with x. */
  function CoLabels(ops: seq<seq<Label>>, x: Label): set<Label>
  {
    if ops == [] then {}
    else CoLabels(ops[..|ops| - 1], x) + if x in ops[|ops| - 1] then Raw.LabelSet(ops[|ops| - 1]) else {}
  }

  /** y shares an operand with x iff some operand holds both. */
  lemma {:induction false} CoLabelsMeaning(ops: seq<seq<Label>>, x: Label, y: Label)
    ensures y in CoLabels(ops, x) <==> exists i :: 0 <= i < |ops| && x in ops[i] && y in ops[i]
  {
    if ops != [] {
      var init := ops[..|ops| - 1];
      CoLabelsMeaning(init, x, y);
      if y in CoLabels(init, x) {
        var i :| 0 <= i < |init| && x in init[i] && y in init[i];
        assert ops[i] == init[i];
      }
      if exists i :: 0 <= i < |ops| && x in ops[i] && y in ops[i] {
        var i :| 0 <= i < |ops| && x in ops[i] && y in ops[i];
        if i < |init| {
          assert init[i] == ops[i];
        }
      }
    }
  }

  /** The neighbours of every label are the labels it shares an operand with. */
  ghost predicate DependencyEdges(edges: map<Label, set<Label>>, ops: seq<seq<Label>>)
  {
    forall x :: UndirectedGraphs.Adj(edges, x) == CoLabels(ops, x)
  }

  /** Adding the complete graph on one more operand. */
  lemma DependencyStep(e1: map<Label, set<Label>>, e2: map<Label, set<Label>>, ops: seq<seq<Label>>, i: nat)
    requires i < |ops|
    requires DependencyEdges(e1, ops[..i])
    requires UndirectedGraphs.IsClique(e2, e1, set x | x in ops[i], set x | x in ops[i])
    ensures DependencyEdges(e2, ops[..i + 1])
  {
    assert ops[..i + 1][..i] == ops[..i];
    assert (set x | x in ops[i]) == Raw.LabelSet(ops[i]);
  }

  /** calcDependencyGraph: one complete graph per operand, so that two
      labels are adjacent iff they share an operand. */
  method CalcDependencyGraph(raw: Raw.RawSubscript) returns (g: UndirectedGraphs.UndirectedGraph)
    ensures fresh(g) && g.Valid()
    ensures g.nodes == Raw.OperandLabels(raw.operands)
    ensures DependencyEdges(g.edges, raw.operands)
  {
    g := new UndirectedGraphs.UndirectedGraph();
    for i := 0 to |raw.operands|
      invariant fresh(g) && g.Valid()
      invariant g.nodes == Raw.OperandLabels(raw.operands[..i])
      invariant DependencyEdges(g.edges, raw.operands[..i])
    {
      ghost var before := g.edges;
      g.AddCompleteGraph(raw.operands[i]);
      DependencyStep(before, g.edges, raw.operands, i);
      Raw.OperandLabelsStep(raw.operands, i);
    }
    assert raw.operands[..|raw.operands|] == raw.operands;
  }

  /** Labels of one operand lie in the same connected component. */
  lemma SameOperandSameComponent(edges: map<Label, set<Label>>, ops: seq<seq<Label>>,
                                 cs: seq<set<Label>>, i: nat, k: nat, x: Label, y: Label)
    requires DependencyEdges(edges, ops) && UndirectedGraphs.Closed(edges, cs)
    requires i < |ops| && x in ops[i] && y in ops[i]
    requires k < |cs| && x in cs[k]
    ensures y in cs[k]
  {
    CoLabelsMeaning(ops, x, y);
    assert UndirectedGraphs.ClosedSet(edges, cs[k]);
  }

  /** Labels of two different components never share an operand: the
      operands of a Cartesian subscript fall into independent groups. */
  lemma CartesianSplitsOperands(edges: map<Label, set<Label>>, ops: seq<seq<Label>>,
                                cs: seq<set<Label>>, i: nat, k1: nat, k2: nat, x: Label, y: Label)
    requires DependencyEdges(edges, ops) && UndirectedGraphs.Closed(edges, cs)
    requires UndirectedGraphs.Disjoint(cs)
    requires k1 < |cs| && k2 < |cs| && k1 != k2 && x in cs[k1] && y in cs[k2]
    requires i < |ops|
    ensures !(x in ops[i] && y in ops[i])
  {
    if x in ops[i] && y in ops[i] {
      SameOperandSameComponent(edges, ops, cs, i, k1, x, y);
    }
  }

  // ---------------------------------------------------------------------
  // Resolve
  // ---------------------------------------------------------------------

  /** operand2result_mapping_resolveType: for every label of the single
      operand its position in the result (getLabelPosInResult, which finds
      every one of them for a Resolve subscript). */
  method Operand2ResultMapping(raw: Raw.RawSubscript, labelPossInResult: map<Label, Raw.Byte>)
    returns (mapping: seq<Raw.Byte>)
    requires |raw.operands| >= 1
    requires labelPossInResult.Keys == Raw.LabelSet(raw.result)
    requires forall l :: l in labelPossInResult ==> labelPossInResult[l] == Raw.IndexOf(raw.result, l) % 256
    requires Raw.LabelSet(raw.operands[0]) <= Raw.LabelSet(raw.result)
    ensures |mapping| == |raw.operands[0]|
    ensures forall k :: 0 <= k < |mapping| ==> raw.operands[0][k] in raw.result &&
                                                mapping[k] == Raw.IndexOf(raw.result, raw.operands[0][k]) % 256
  {
    var op := raw.operands[0];
    mapping := [];
    for k := 0 to |op|
      invariant |mapping| == k
      invariant forall q :: 0 <= q < k ==> op[q] in raw.result && mapping[q] == Raw.IndexOf(raw.result, op[q]) % 256
    {
      assert op[k] in Raw.LabelSet(op);
      mapping := mapping + [labelPossInResult[op[k]]];
    }
  }

  /** For a result of at most 256 labels the mapping points at the operand's
      own label in the result. */
  lemma ResolveMappingFindsLabel(raw: Raw.RawSubscript, mapping: seq<Raw.Byte>)
    requires |raw.operands| >= 1 && |raw.result| <= 256
    requires |mapping| == |raw.operands[0]|
    requires forall k :: 0 <= k < |mapping| ==> raw.operands[0][k] in raw.result &&
                                                mapping[k] == Raw.IndexOf(raw.result, raw.operands[0][k]) % 256
    ensures forall k :: 0 <= k < |mapping| ==> mapping[k] < |raw.result| && raw.result[mapping[k]] == raw.operands[0][k]
  {
    forall k | 0 <= k < |mapping|
      ensures mapping[k] < |raw.result| && raw.result[mapping[k]] == raw.operands[0][k]
    {
      ByteUnchanged(Raw.IndexOf(raw.result, raw.operands[0][k]));
    }
  }

  // ---------------------------------------------------------------------
  // Subscript
  // ---------------------------------------------------------------------

  /** A Subscript: a RawSubscript together with the label facts its
      constructor computes once (the Cartesian sub-subscripts and the
      label position cache are not modelled). */
  class Subscript {
    const raw: Raw.RawSubscript
    const operandsLabelSet: set<Label>
    const resultLabelSet: set<Label>
    const dependencyGraph: UndirectedGraphs.UndirectedGraph
    const connectedComponents: seq<set<Label>>
    const usedResultPoss: seq<Raw.Byte>
    /** The field type. */
    const operatorType: Type
    const allResultDone: bool
    const possOfOperandsWithLabels: map<Label, seq<Raw.Byte>>
    const lonelyNonResultLabels: set<Label>
    const labelPossInResult: map<Label, Raw.Byte>
    const operand2resultMapping: seq<Raw.Byte>

    /** The facts the accessors rely on. */
    ghost predicate Valid()
    {
      operandsLabelSet == Raw.OperandLabels(raw.operands) &&
      resultLabelSet == Raw.LabelSet(raw.result) &&
      possOfOperandsWithLabels == PossMap(raw.operands) &&
      (operatorType == Join || operatorType == Resolve ==>
         labelPossInResult.Keys == Raw.LabelSet(raw.result) &&
         forall l :: l in labelPossInResult ==> labelPossInResult[l] == Raw.IndexOf(raw.result, l) % 256) &&
      (operatorType != Join && operatorType != Resolve ==> labelPossInResult == map[])
    }

    /** Subscript(raw_subscript, type): a requested CarthesianMapping type is
        kept, any other is replaced by calcState; the label positions in
        the result are computed for Join and Resolve, the operand-to-result
        mapping for Resolve. */
    constructor (raw0: Raw.RawSubscript, requested: Type)
      ensures raw == raw0 && Valid()
      ensures fresh(dependencyGraph) && dependencyGraph.Valid()
      ensures dependencyGraph.nodes == operandsLabelSet
      ensures DependencyEdges(dependencyGraph.edges, raw.operands)
      ensures UndirectedGraphs.Disjoint(connectedComponents)
      ensures UndirectedGraphs.Closed(dependencyGraph.edges, connectedComponents)
      ensures forall x :: x in operandsLabelSet <==>
                exists i :: 0 <= i < |connectedComponents| && x in connectedComponents[i]
      ensures forall i :: 0 <= i < |connectedComponents| ==>
                connectedComponents[i] != {} &&
                UndirectedGraphs.AllConnected(dependencyGraph.edges, connectedComponents[i])
      ensures usedResultPoss == Raw.AsBytes(UsedPositions(raw.result, operandsLabelSet))
      ensures operatorType == if requested == CarthesianMapping then CarthesianMapping
                              else StateOf(raw, |connectedComponents|)
      ensures allResultDone <==> resultLabelSet !! operandsLabelSet
      ensures lonelyNonResultLabels <= operandsLabelSet
      ensures forall l :: l in lonelyNonResultLabels ==> l !in raw.result && TotalCount(raw.operands, l) == 1
      ensures |raw.operands| <= 256 ==>
                forall l :: l in operandsLabelSet && l !in raw.result && TotalCount(raw.operands, l) == 1 ==>
                  l in lonelyNonResultLabels
      ensures operatorType == Resolve ==>
                |raw.operands| == 1 && |operand2resultMapping| == |raw.operands[0]| &&
                forall k :: 0 <= k < |operand2resultMapping| ==>
                  raw.operands[0][k] in raw.result &&
                  operand2resultMapping[k] == Raw.IndexOf(raw.result, raw.operands[0][k]) % 256
      ensures operatorType != Resolve ==> operand2resultMapping == []
    {
      var ols := Raw.GetOperandsLabelSet(raw0);
      var rls := Raw.GetResultLabelSet(raw0);
      var g := CalcDependencyGraph(raw0);
      var cs := g.GetConnectedComponents();
      var used := UsedResultPoss(raw0, ols);
      var t;
      if requested == CarthesianMapping {
        t := CarthesianMapping;
      } else {
        t := CalcState(raw0, ols, rls, cs);
      }
      var poss := PossOfOperandsWithLabels(raw0);
      var lonely := LonelyNonResultLabels(raw0, ols, rls, poss);
      var inResult: map<Label, Raw.Byte> := map[];
      var mapping: seq<Raw.Byte> := [];
      if t == Join {
        inResult := Raw.GetLabelPossInResult(raw0);
      } else if t == Resolve {
        inResult := Raw.GetLabelPossInResult(raw0);
        mapping := Operand2ResultMapping(raw0, inResult);
      }
      raw := raw0;
      operandsLabelSet := ols;
      resultLabelSet := rls;
      dependencyGraph := g;
      connectedComponents := cs;
      usedResultPoss := used;
      operatorType := t;
      allResultDone := CalcAllResultDone(ols, rls);
      possOfOperandsWithLabels := poss;
      lonelyNonResultLabels := lonely;
      labelPossInResult := inResult;
      operand2resultMapping := mapping;
    }

    /** getPossOfOperandsWithLabel: the operand positions of a label, one per
        occurrence; invalid_argument for a label no operand uses. */
    function GetPossOfOperandsWithLabel(l: Label): (r: Wrappers.Result<seq<Raw.Byte>, string>)
      requires Valid()
      ensures r.Success? <==> exists i :: 0 <= i < |raw.operands| && l in raw.operands[i]
      ensures r.Success? ==> r.value == Raw.AsBytes(OperandPositions(raw.operands, l))
    {
      PossMapMeaning(raw.operands, l);
      Raw.OperandLabelsUnion(raw.operands);
      if l in possOfOperandsWithLabels then Wrappers.Success(possOfOperandsWithLabels[l])
      else Wrappers.Failure("label is not used in operands.")
    }

    /** getLabelPosInResult: the first position of a result label, known for
        Join and Resolve subscripts only; invalid_argument otherwise. */
    function GetLabelPosInResult(l: Label): (r: Wrappers.Result<Raw.Byte, string>)
      requires Valid()
      ensures r.Success? <==> (operatorType == Join || operatorType == Resolve) && l in raw.result
      ensures r.Success? ==> r.value == Raw.IndexOf(raw.result, l) % 256
    {
      if l in labelPossInResult then Wrappers.Success(labelPossInResult[l])
      else Wrappers.Failure("label is not in result.")
    }

    /** isResultLabel. */
    function IsResultLabel(l: Label): (b: bool)
      requires Valid()
      ensures b <==> l in raw.result
    {
      l in resultLabelSet
    }
  }
}
