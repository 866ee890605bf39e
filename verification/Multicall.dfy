/** Signature strings such as "f(uint256,(address,bytes)[])(bool)" and the batching of contract calls
    (servers/w3multicall/multicall.py). */
module Multicall {
  import opened Prelude

  // ----- Parentheses

  function Weight(c: char): int {
    if c == '(' then 1 else if c == ')' then -1 else 0
  }

  /** Opening minus closing parentheses. */
  function Net(s: string): int {
    if s == "" then 0 else Net(s[..|s| - 1]) + Weight(s[|s| - 1])
  }

  lemma {:induction false} NetConcat(a: string, b: string)
    ensures Net(a + b) == Net(a) + Net(b)
    decreases |b|
  {
    if b == "" {
      assert a + b == a;
    } else {
      assert (a + b)[..|a + b| - 1] == a + b[..|b| - 1];
      NetConcat(a, b[..|b| - 1]);
    }
  }

  lemma {:induction false} NetPlain(s: string)
    requires Plain(s)
    ensures Net(s) == 0
  {
    if s != "" {
      NetPlain(s[..|s| - 1]);
    }
  }

  /** No parentheses and no commas. */
  predicate Plain(s: string) {
    forall i :: 0 <= i < |s| ==> s[i] != '(' && s[i] != ')' && s[i] != ','
  }

  // ----- Lists of types

  /** What the scan has split off so far: cut at each comma that is outside any tuple. */
  function SplitTop(s: string): (parts: seq<string>)
    ensures |parts| >= 1
  {
    if s == "" then [""] else
      var init, c := s[..|s| - 1], s[|s| - 1];
      var parts := SplitTop(init);
      if c == ',' && Net(init) == 0 then parts + [""]
      else parts[..|parts| - 1] + [parts[|parts| - 1] + [c]]
  }

  /** Python's `s[1:-1]`. */
  function Inner(s: string): string {
    if |s| < 2 then "" else s[1..|s| - 1]
  }

  /** What `_parse_type_string` returns. */
  function TypesOf(s: string): seq<string> {
    if s == "()" then [] else SplitTop(Inner(s))
  }

  method ParseTypeString(typestring: string) returns (parts: seq<string>)
    ensures parts == TypesOf(typestring)
  {
    parts := [];
    if typestring == "()" {
      return;
    }
    var part, insideTuples := "", 0;
    var inner := Inner(typestring);
    for i := 0 to |inner|
      invariant insideTuples == Net(inner[..i])
      invariant parts + [part] == SplitTop(inner[..i])
    {
      var character := inner[i];
      assert inner[..i + 1][..i] == inner[..i];
      ghost var before := parts + [part];
      assert before[..|before| - 1] == parts;
      if character == ',' && insideTuples == 0 {
        parts := parts + [part];
        part := "";
      } else {
        if character == '(' {
          insideTuples := insideTuples + 1;
        } else if character == ')' {
          insideTuples := insideTuples - 1;
        }
        part := part + [character];
      }
    }
    assert inner[..|inner|] == inner;
    parts := parts + [part];
  }

  /** `",".join(parts)`. */
  function Join(parts: seq<string>): string {
    if parts == [] then ""
    else if |parts| == 1 then parts[0]
    else Join(parts[..|parts| - 1]) + "," + parts[|parts| - 1]
  }

  /** What a list prints before the next part. */
  function Leading(parts: seq<string>): string {
    if parts == [] then "" else Join(parts) + ","
  }

  lemma {:induction false} JoinAppend(init: seq<string>, last: string)
    ensures Join(init + [last]) == Leading(init) + last
  {
    assert (init + [last])[..|init|] == init;
    assert "" + last == last;
  }

  lemma {:induction false} JoinSplit(s: string)
    ensures Join(SplitTop(s)) == s
  {
    if s != "" {
      var init, c := s[..|s| - 1], s[|s| - 1];
      JoinSplit(init);
      assert init + [c] == s;
      var parts := SplitTop(init);
      var front, last := parts[..|parts| - 1], parts[|parts| - 1];
      JoinAppend(parts, "");
      JoinAppend(front, last);
      JoinAppend(front, last + [c]);
      assert front + [last] == parts;
      assert Leading(front) + (last + [c]) == Leading(front) + last + [c];
      assert init + "," + "" == init + ",";
    }
  }

  /** Joining what was parsed gives back everything between the outer characters, whatever they are. */
  lemma ParsedTypesJoinBack(s: string)
    ensures Join(TypesOf(s)) == Inner(s)
  {
    if s != "()" {
      JoinSplit(Inner(s));
    } else {
      assert Inner(s) == "";
    }
  }

  /** As many opening as closing parentheses, and no comma outside them. */
  ghost predicate Closed(p: string) {
    Net(p) == 0 && forall i :: 0 <= i < |p| && p[i] == ',' ==> Net(p[..i]) != 0
  }

  function ExtendLast(parts: seq<string>, s: string): seq<string>
    requires parts != []
  {
    parts[..|parts| - 1] + [parts[|parts| - 1] + s]
  }

  lemma ExtendLastTwice(parts: seq<string>, a: string, b: string)
    requires parts != []
    ensures ExtendLast(ExtendLast(parts, a), b) == ExtendLast(parts, a + b)
  {
    assert parts[|parts| - 1] + a + b == parts[|parts| - 1] + (a + b);
  }

  lemma ExtendByNothing(parts: seq<string>)
    requires parts != []
    ensures ExtendLast(parts, "") == parts
  {
    assert parts[|parts| - 1] + "" == parts[|parts| - 1];
  }

  lemma {:induction false} SplitOneMore(s: string, c: char)
    requires c == ',' ==> Net(s) != 0
    ensures SplitTop(s + [c]) == ExtendLast(SplitTop(s), [c])
  {
    assert (s + [c])[..|s|] == s;
  }

  lemma {:induction false} SplitAfterParts(done: string, n: nat, p: string)
    requires n <= |p| && Net(done) == 0 && forall i :: 0 <= i < n && p[i] == ',' ==> Net(p[..i]) != 0
    ensures SplitTop(done + p[..n]) == ExtendLast(SplitTop(done), p[..n])
    decreases n
  {
    if n == 0 {
      assert done + p[..0] == done;
      ExtendByNothing(SplitTop(done));
    } else {
      var before := p[..n - 1];
      assert before + [p[n - 1]] == p[..n] && done + before + [p[n - 1]] == done + p[..n];
      SplitAfterParts(done, n - 1, p);
      NetConcat(done, before);
      SplitOneMore(done + before, p[n - 1]);
      ExtendLastTwice(SplitTop(done), before, [p[n - 1]]);
    }
  }

  lemma {:induction false} SplitAppend(front: string, init: seq<string>, last: string)
    requires SplitTop(front) == init + [""] && Net(front) == 0 && Closed(last)
    ensures SplitTop(front + last) == init + [last] && Net(front + last) == 0
  {
    assert last[..|last|] == last;
    SplitAfterParts(front, |last|, last);
    assert (init + [""])[..|init|] == init && "" + last == last;
    NetConcat(front, last);
  }

  lemma {:induction false} LeadingSplits(init: seq<string>)
    requires init != [] ==> SplitTop(Join(init)) == init && Net(Join(init)) == 0
    ensures SplitTop(Leading(init)) == init + [""] && Net(Leading(init)) == 0
  {
    if init == [] {
      assert Net("") == 0 && SplitTop("") == [""] && init + [""] == [""];
    } else {
      var s := Leading(init);
      assert s[..|s| - 1] == Join(init) && s[|s| - 1] == ',';
      assert SplitTop(s) == SplitTop(Join(init)) + [""];
    }
  }

  lemma {:induction false} SplitJoin(parts: seq<string>)
    requires parts != [] && forall p :: p in parts ==> Closed(p)
    ensures SplitTop(Join(parts)) == parts && Net(Join(parts)) == 0
  {
    var init, last := parts[..|parts| - 1], parts[|parts| - 1];
    assert parts == init + [last] && last in parts;
    if init != [] {
      SplitJoin(init);
    }
    SplitJoinStep(init, last);
  }

  lemma {:induction false} SplitJoinStep(init: seq<string>, last: string)
    requires init != [] ==> SplitTop(Join(init)) == init && Net(Join(init)) == 0
    requires Closed(last)
    ensures SplitTop(Join(init + [last])) == init + [last] && Net(Join(init + [last])) == 0
  {
    LeadingSplits(init);
    SplitAppend(Leading(init), init, last);
    JoinAppend(init, last);
  }

  /** Parsing a printed list of closed types gives the list back, except the list of one empty type,
      which prints like the empty list. */
  lemma {:induction false} PrintedTypesParseBackIff(parts: seq<string>)
    requires forall p :: p in parts ==> Closed(p)
    ensures TypesOf("(" + Join(parts) + ")") == parts <==> parts != [""]
  {
    var s := "(" + Join(parts) + ")";
    assert Inner(s) == Join(parts);
    if parts != [] {
      SplitJoin(parts);
      if s == "()" {
        assert Join(parts) == "";
        assert SplitTop("") == [""];
      }
    }
  }

  // ----- Whole signatures

  /** The scan's variables; the stack is as deep as parentheses are open. */
  datatype Scan = Scan(parts: seq<string>, depth: nat, start: nat)

  /** After the first `end` characters; None when a parenthesis closes that was never opened. */
  function ScanTo(signature: string, end: nat): (r: Option<Scan>)
    requires end <= |signature|
    ensures r.Some? ==> r.value.start <= end
  {
    if end == 0 then Some(Scan([], 0, 0)) else
      match ScanTo(signature, end - 1)
      case None => None
      case Some(s) =>
        var c := signature[end - 1];
        if c == '(' then
          if s.parts == [] then Some(Scan(s.parts + [signature[s.start..end - 1]], s.depth + 1, end - 1))
          else Some(s.(depth := s.depth + 1))
        else if c == ')' then
          if s.depth == 0 then None
          else if s.depth == 1 then Some(Scan(s.parts + [signature[s.start..end]], 0, end))
          else Some(s.(depth := s.depth - 1))
        else Some(s)
  }

  /** The scan raises exactly when a parenthesis closes that was never opened; otherwise it knows how many are open. */
  lemma {:induction false} ScanRaisesIff(signature: string, end: nat)
    requires end <= |signature|
    ensures ScanTo(signature, end).None? <==> exists i :: 0 <= i <= end && Net(signature[..i]) < 0
    ensures ScanTo(signature, end).Some? ==> ScanTo(signature, end).value.depth == Net(signature[..end])
  {
    if end > 0 {
      ScanRaisesIff(signature, end - 1);
      assert signature[..end][..end - 1] == signature[..end - 1];
      assert Net(signature[..end]) == Net(signature[..end - 1]) + Weight(signature[end - 1]);
    } else {
      assert signature[..0] == "" && Net("") == 0;
    }
  }

  datatype Signature = Signature(name: string, inputTypes: seq<string>, outputTypes: seq<string>)

  /** What `_parse_signature` returns; None is an IndexError. */
  function SignatureOf(signature: string): Option<Signature> {
    match ScanTo(signature, |signature|)
    case None => None
    case Some(s) =>
      if |s.parts| < 3 then None
      else Some(Signature(s.parts[0] + s.parts[1], TypesOf(s.parts[1]), TypesOf(s.parts[2])))
  }

  method ParseSignature(signature: string) returns (r: Option<Signature>)
    ensures r == SignatureOf(signature)
  {
    var parts: seq<string>, stack: seq<char>, start := [], [], 0;
    var end := 0;
    while end < |signature|
      invariant 0 <= start <= end <= |signature|
      invariant ScanTo(signature, end) == Some(Scan(parts, |stack|, start))
    {
      var character := signature[end];
      if character == '(' {
        stack := stack + [character];
        if parts == [] {
          parts := parts + [signature[start..end]];
          start := end;
        }
      }
      if character == ')' {
        if |stack| == 0 {
          NeverReopens(signature, end + 1, |signature|);
          return None;
        }
        stack := stack[..|stack| - 1];
        if |stack| == 0 {
          parts := parts + [signature[start..end + 1]];
          start := end + 1;
        }
      }
      end := end + 1;
    }
    if |parts| < 3 {
      return None;
    }
    var inputTypes := ParseTypeString(parts[1]);
    var outputTypes := ParseTypeString(parts[2]);
    r := Some(Signature(parts[0] + parts[1], inputTypes, outputTypes));
  }

  lemma {:induction false} NeverReopens(signature: string, m: nat, n: nat)
    requires m <= n <= |signature| && ScanTo(signature, m).None?
    ensures ScanTo(signature, n).None?
    decreases n
  {
    if m < n {
      NeverReopens(signature, m, n - 1);
    }
  }

  /** One outermost group: opens at the first character and closes only at the last. */
  ghost predicate Group(g: string) {
    |g| >= 2 && g[0] == '(' && Net(g) == 0 && forall i :: 0 < i < |g| ==> Net(g[..i]) > 0
  }

  /** The scan over plain text moves nothing. */
  lemma {:induction false} ScanName(name: string, rest: string, end: nat)
    requires end <= |name| && Plain(name)
    ensures ScanTo(name + rest, end) == Some(Scan([], 0, 0))
    decreases end
  {
    if end > 0 {
      ScanName(name, rest, end - 1);
      assert (name + rest)[end - 1] == name[end - 1];
    }
  }

  lemma ScanStepInside(signature: string, end: nat, parts: seq<string>, depth: nat, start: nat)
    requires end < |signature| && ScanTo(signature, end) == Some(Scan(parts, depth, start)) && parts != []
    requires depth > 0 && depth + Weight(signature[end]) > 0
    ensures ScanTo(signature, end + 1) == Some(Scan(parts, depth + Weight(signature[end]), start))
  {}

  lemma ScanOpens(signature: string, at: nat, parts: seq<string>, name: string)
    requires at < |signature| && signature[at] == '('
    requires parts != [] || signature[..at] == name
    requires ScanTo(signature, at) == Some(Scan(parts, 0, if parts == [] then 0 else at))
    ensures ScanTo(signature, at + 1) == Some(Scan(if parts == [] then [name] else parts, 1, at))
  {
    if parts == [] {
      assert signature[0..at] == name;
      assert parts + [name] == [name];
    }
  }

  lemma NetOneMore(g: string, n: nat)
    requires 0 < n <= |g|
    ensures Net(g[..n]) == Net(g[..n - 1]) + Weight(g[n - 1])
  {
    assert g[..n][..n - 1] == g[..n - 1];
  }

  /** Inside a group, after at least its first character, the scan only counts. */
  lemma {:induction false} ScanInside(signature: string, at: nat, g: string, n: nat, parts: seq<string>, name: string)
    requires at + |g| <= |signature| && signature[at..at + |g|] == g && Group(g) && 0 < n < |g|
    requires parts != [] || signature[..at] == name
    requires ScanTo(signature, at) == Some(Scan(parts, 0, if parts == [] then 0 else at))
    ensures ScanTo(signature, at + n) == Some(Scan(if parts == [] then [name] else parts, Net(g[..n]), at))
    decreases n
  {
    assert signature[at + n - 1] == g[n - 1] && signature[at] == g[0];
    NetOneMore(g, n);
    if n == 1 {
      assert g[..0] == "" && Net("") == 0;
      ScanOpens(signature, at, parts, name);
    } else {
      ScanInside(signature, at, g, n - 1, parts, name);
      ScanStepInside(signature, at + n - 1, if parts == [] then [name] else parts, Net(g[..n - 1]), at);
    }
  }

  /** A whole group becomes one part. */
  lemma ScanGroup(signature: string, at: nat, g: string, parts: seq<string>, name: string)
    requires at + |g| <= |signature| && signature[at..at + |g|] == g && Group(g)
    requires parts != [] || signature[..at] == name
    requires ScanTo(signature, at) == Some(Scan(parts, 0, if parts == [] then 0 else at))
    ensures ScanTo(signature, at + |g|) == Some(Scan((if parts == [] then [name] else parts) + [g], 0, at + |g|))
  {
    ScanInside(signature, at, g, |g| - 1, parts, name);
    assert signature[at + |g| - 1] == g[|g| - 1];
    assert Net(g) == Net(g[..|g| - 1]) + Weight(g[|g| - 1]);
  }

  lemma {:induction false} NameThenGroup(name: string, ins: string, rest: string)
    requires Plain(name) && Group(ins)
    ensures ScanTo(name + ins + rest, |name| + |ins|) == Some(Scan([name, ins], 0, |name| + |ins|))
  {
    var signature := name + ins + rest;
    assert signature == name + (ins + rest);
    ScanName(name, ins + rest, |name|);
    assert signature[|name|..|name| + |ins|] == ins && signature[..|name|] == name;
    ScanGroup(signature, |name|, ins, [], name);
    assert [name] + [ins] == [name, ins];
  }

  lemma NameThenGroups(name: string, ins: string, outs: string)
    requires Plain(name) && Group(ins) && Group(outs)
    ensures var signature := name + ins + outs;
            ScanTo(signature, |signature|) == Some(Scan([name, ins, outs], 0, |signature|))
  {
    var signature, at := name + ins + outs, |name| + |ins|;
    NameThenGroup(name, ins, outs);
    assert signature[at..at + |outs|] == outs;
    ScanGroup(signature, at, outs, [name, ins], name);
    assert [name, ins] + [outs] == [name, ins, outs];
  }

  /** A name followed by two groups parses into the name with the first group, and the types of both. */
  lemma SignatureParses(name: string, ins: string, outs: string)
    requires Plain(name) && Group(ins) && Group(outs)
    ensures SignatureOf(name + ins + outs) == Some(Signature(name + ins, TypesOf(ins), TypesOf(outs)))
  {
    NameThenGroups(name, ins, outs);
  }

  /** Without the group of output types the call cannot be built. */
  lemma OutputTypesAreRequired(name: string, ins: string)
    requires Plain(name) && Group(ins)
    ensures SignatureOf(name + ins) == None
  {
    assert name + ins + "" == name + ins;
    NameThenGroup(name, ins, "");
  }

  // ----- Types as trees

  /** "uint256[]", or "(address,bytes)[2]" with its array suffix. */
  datatype AbiType = Elementary(name: string) | Tuple(items: seq<AbiType>, suffix: string)

  predicate WellFormed(t: AbiType) {
    match t
    case Elementary(name) => name != "" && Plain(name)
    case Tuple(items, suffix) => Plain(suffix) && forall i :: 0 <= i < |items| ==> WellFormed(items[i])
  }

  function Print(t: AbiType): string {
    match t
    case Elementary(name) => name
    case Tuple(items, suffix) => "(" + Join(PrintAll(items)) + ")" + suffix
  }

  function PrintAll(ts: seq<AbiType>): (parts: seq<string>)
    ensures |parts| == |ts|
    ensures forall i :: 0 <= i < |ts| ==> parts[i] == Print(ts[i])
    decreases ts
  {
    if ts == [] then [] else PrintAll(ts[..|ts| - 1]) + [Print(ts[|ts| - 1])]
  }

  /** No prefix has a smaller balance than `lo`. */
  ghost predicate StaysAbove(p: string, lo: int) {
    forall i :: 0 <= i <= |p| ==> Net(p[..i]) >= lo
  }

  /** Balanced, and no prefix closes more than it opens. */
  ghost predicate Level(s: string) {
    Net(s) == 0 && StaysAbove(s, 0)
  }

  lemma {:induction false} AboveConcat(a: string, b: string, lo: int)
    requires StaysAbove(a, lo) && StaysAbove(b, lo - Net(a))
    ensures StaysAbove(a + b, lo)
  {
    var p := a + b;
    forall i | 0 <= i <= |p| ensures Net(p[..i]) >= lo {
      if i <= |a| {
        assert p[..i] == a[..i];
      } else {
        assert p[..i] == a + b[..i - |a|];
        NetConcat(a, b[..i - |a|]);
      }
    }
  }

  lemma {:induction false} PlainIsLevel(s: string)
    requires Plain(s)
    ensures Level(s)
  {
    NetPlain(s);
    forall i | 0 <= i <= |s| ensures Net(s[..i]) >= 0 {
      NetPlain(s[..i]);
    }
  }

  lemma OneChar(c: char)
    ensures Net([c]) == Weight(c) && (Weight(c) >= 0 ==> StaysAbove([c], 0)) && StaysAbove([c], -1)
  {
    assert [c][..0] == "" && [c][..1] == [c];
    assert Net("") == 0;
  }

  lemma {:induction false} JoinStaysLevel(parts: seq<string>)
    requires forall p :: p in parts ==> Level(p)
    ensures Level(Join(parts))
  {
    if parts == [] {
      PlainIsLevel("");
    } else if |parts| == 1 {
      assert parts[0] in parts;
    } else {
      var init, last := parts[..|parts| - 1], parts[|parts| - 1];
      assert last in parts && forall p :: p in init ==> p in parts;
      JoinStaysLevel(init);
      CommaStaysLevel(Join(init), last);
    }
  }

  lemma {:induction false} CommaStaysLevel(a: string, b: string)
    requires Level(a) && Level(b)
    ensures Level(a + "," + b)
  {
    OneChar(',');
    LevelConcat(a, ",");
    LevelConcat(a + ",", b);
  }

  lemma {:induction false} LevelConcat(a: string, b: string)
    requires Level(a) && Level(b)
    ensures Level(a + b)
  {
    AboveConcat(a, b, 0);
    NetConcat(a, b);
  }

  /** Wrapping a level text in parentheses makes one outermost group. */
  lemma {:induction false} WrapIsGroup(j: string)
    requires Level(j)
    ensures Group("(" + j + ")")
  {
    var g := "(" + j + ")";
    OneChar('(');
    OneChar(')');
    NetConcat("(", j);
    NetConcat("(" + j, ")");
    forall i | 0 < i < |g| ensures Net(g[..i]) > 0 {
      assert g[..i] == "(" + j[..i - 1];
      NetConcat("(", j[..i - 1]);
    }
  }

  lemma GroupThenSuffix(g: string, suffix: string)
    requires Group(g) && Plain(suffix)
    ensures Closed(g + suffix) && StaysAbove(g + suffix, 0)
  {
    var p := g + suffix;
    PlainIsLevel(suffix);
    NetConcat(g, suffix);
    assert StaysAbove(g, 0) by {
      assert g[..0] == "" && g[..|g|] == g && Net("") == 0;
    }
    AboveConcat(g, suffix, 0);
    assert forall i :: |g| <= i < |p| ==> p[i] == suffix[i - |g|];
    forall i | 0 <= i < |p| && p[i] == ',' ensures Net(p[..i]) != 0 {
      assert p[..i] == g[..i];
    }
  }

  /** Every printed type is closed: no comma of it is at top level, however deep its tuples go. */
  lemma {:induction false} PrintIsClosed(t: AbiType)
    requires WellFormed(t)
    ensures Closed(Print(t)) && StaysAbove(Print(t), 0) && Print(t) != ""
    decreases t, 0
  {
    match t {
      case Elementary(name) => PlainIsLevel(name);
      case Tuple(items, suffix) =>
        PrintsAreClosed(items);
        JoinStaysLevel(PrintAll(items));
        WrapIsGroup(Join(PrintAll(items)));
        GroupThenSuffix("(" + Join(PrintAll(items)) + ")", suffix);
    }
  }

  lemma {:induction false} PrintsAreClosed(ts: seq<AbiType>)
    requires forall i :: 0 <= i < |ts| ==> WellFormed(ts[i])
    ensures forall p :: p in PrintAll(ts) ==> Closed(p) && StaysAbove(p, 0) && p != ""
    decreases ts, 1
  {
    forall i | 0 <= i < |ts| ensures Closed(Print(ts[i])) && StaysAbove(Print(ts[i]), 0) && Print(ts[i]) != "" {
      PrintIsClosed(ts[i]);
    }
  }

  function PrintGroup(ts: seq<AbiType>): string {
    "(" + Join(PrintAll(ts)) + ")"
  }

  /** Printing then parsing: a function with any input and output types, nested to any depth, comes back
      as its selector text and the printed form of each type. */
  lemma {:induction false} PrintedSignatureParses(name: string, ins: seq<AbiType>, outs: seq<AbiType>)
    requires Plain(name)
    requires forall i :: 0 <= i < |ins| ==> WellFormed(ins[i])
    requires forall i :: 0 <= i < |outs| ==> WellFormed(outs[i])
    ensures SignatureOf(name + PrintGroup(ins) + PrintGroup(outs))
            == Some(Signature(name + PrintGroup(ins), PrintAll(ins), PrintAll(outs)))
  {
    PrintedListParses(ins);
    PrintedListParses(outs);
    SignatureParses(name, PrintGroup(ins), PrintGroup(outs));
  }

  lemma {:induction false} PrintTwo(x: AbiType, y: AbiType)
    ensures PrintAll([x, y]) == [Print(x), Print(y)] && Join([Print(x), Print(y)]) == Print(x) + "," + Print(y)
  {
    assert [x, y][..1] == [x] && [x][..0] == [];
    assert PrintAll([x]) == [] + [Print(x)];
    assert [Print(x), Print(y)][..1] == [Print(x)];
  }

  lemma {:induction false} PrintOne(x: AbiType)
    ensures PrintAll([x]) == [Print(x)] && Join([Print(x)]) == Print(x)
  {
    assert [x][..0] == [] && PrintAll([x]) == [] + [Print(x)];
  }

  const INNER := Tuple([Elementary("b"), Elementary("c")], "[]")

  lemma InnerText()
    ensures Print(INNER) == "(b,c)[]" && WellFormed(INNER)
  {
    PrintTwo(Elementary("b"), Elementary("c"));
    assert "(" + ("b" + "," + "c") + ")" + "[]" == "(b,c)[]";
  }

  lemma GroupTexts()
    ensures PrintAll([Elementary("a"), INNER]) == ["a", "(b,c)[]"] && PrintAll([Elementary("d")]) == ["d"]
    ensures PrintGroup([Elementary("a"), INNER]) == "(a,(b,c)[])" && PrintGroup([Elementary("d")]) == "(d)"
  {
    InnerText();
    PrintTwo(Elementary("a"), INNER);
    PrintOne(Elementary("d"));
    assert "(" + ("a" + "," + "(b,c)[]") + ")" == "(a,(b,c)[])" && "(" + "d" + ")" == "(d)";
  }

  /** Concretely: a function with a nested input type and one output type. */
  lemma SignatureExample()
    ensures SignatureOf("f(a,(b,c)[])(d)") == Some(Signature("f(a,(b,c)[])", ["a", "(b,c)[]"], ["d"]))
  {
    InnerText();
    GroupTexts();
    ExampleText();
    PrintedSignatureParses("f", [Elementary("a"), INNER], [Elementary("d")]);
  }

  lemma ExampleText()
    ensures "f" + "(a,(b,c)[])" == "f(a,(b,c)[])" && "f" + "(a,(b,c)[])" + "(d)" == "f(a,(b,c)[])(d)"
  {}

  lemma {:induction false} PrintedListParses(ts: seq<AbiType>)
    requires forall i :: 0 <= i < |ts| ==> WellFormed(ts[i])
    ensures Group(PrintGroup(ts)) && TypesOf(PrintGroup(ts)) == PrintAll(ts)
  {
    var parts := PrintAll(ts);
    PrintsAreClosed(ts);
    JoinStaysLevel(parts);
    WrapIsGroup(Join(parts));
    assert parts != [] ==> parts[0] in parts;
    PrintedTypesParseBackIff(parts);
  }

  // ----- Batches of calls

  datatype Call = Call(address: string, signature: Signature, data: string)

  /** The ABI decoder; None stands for output that cannot be decoded, which the caller gets as None. */
  type Decoder = (seq<string>, string) -> Option<string>

  /** The remote call fails, its response cannot be decoded, or a call has no output types to read. */
  datatype CallError = RpcFailed | UndecodableResponse | NoOutputs

  /** How many calls can be paired with an answer. */
  function PairedCount(calls: seq<Call>, answers: seq<string>): (n: nat)
    ensures n <= |calls| && n <= |answers|
  {
    if |calls| < |answers| then |calls| else |answers|
  }

  /** The paired calls' outputs, each decoded with that call's own output types. */
  function Outputs(calls: seq<Call>, answers: seq<string>, decode: Decoder): (r: Result<seq<Option<string>>, CallError>)
    ensures r.Ok? ==> |r.value| == PairedCount(calls, answers)
    ensures r.Ok? ==> forall i :: 0 <= i < |r.value| ==>
            r.value[i] == decode(calls[i].signature.outputTypes, answers[i])
    ensures r.Err? <==> exists i :: 0 <= i < PairedCount(calls, answers) && calls[i].signature.outputTypes == []
  {
    var n := PairedCount(calls, answers);
    if exists i :: 0 <= i < n && calls[i].signature.outputTypes == [] then Err(NoOutputs)
    else Ok(seq(n, i requires 0 <= i < n => decode(calls[i].signature.outputTypes, answers[i])))
  }

  class W3Multicall {
    var calls: seq<Call>

    constructor (calls: seq<Call>)
      ensures this.calls == calls
    {
      this.calls := calls;
    }

    method Add(call: Call)
      modifies this
      ensures calls == old(calls) + [call]
    {
      calls := calls + [call];
    }

    /** `aggregate` is the contract: one answer per (address, data) pair, in order, or an error. */
    method CallAll(aggregate: seq<(string, string)> -> Result<seq<string>, CallError>, decode: Decoder)
      returns (r: Result<seq<Option<string>>, CallError>)
      ensures match aggregate(Pairs(calls))
              case Err(e) => r == Err(e)
              case Ok(answers) => r == Outputs(calls, answers, decode)
    {
      var response := aggregate(Pairs(calls));
      if response.Err? {
        return Err(response.error);
      }
      var unpacked, outputs, i := response.value, [], 0;
      while i < |calls| && i < |unpacked|
        invariant 0 <= i <= PairedCount(calls, unpacked) && |outputs| == i
        invariant forall k :: 0 <= k < i ==>
                    calls[k].signature.outputTypes != []
                    && outputs[k] == decode(calls[k].signature.outputTypes, unpacked[k])
      {
        if calls[i].signature.outputTypes == [] {
          return Err(NoOutputs);
        }
        outputs := outputs + [decode(calls[i].signature.outputTypes, unpacked[i])];
        i := i + 1;
      }
      assert Outputs(calls, unpacked, decode).Ok? && Outputs(calls, unpacked, decode).value == outputs;
      r := Ok(outputs);
    }
  }

  function Pairs(calls: seq<Call>): (pairs: seq<(string, string)>)
    ensures |pairs| == |calls|
  {
    seq(|calls|, i requires 0 <= i < |calls| => (calls[i].address, calls[i].data))
  }
}
