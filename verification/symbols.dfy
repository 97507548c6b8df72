/**
 * The symbol reducer: from a compiler's pretty-printed function signature
 * such as "virtual std::vector<int> my::namespace::foo(int)" it prints the
 * Java-style scope path "my.namespace" used for the class-name field.
 *
 * `remove_prefix` with a count larger than the remaining text is undefined in
 * the source; the model clamps it and removes everything (see `Drop`).
 */
module Symbols {
  import opened Base

  /** Qualifiers that can precede the return type. */
  const FunPrefixes: seq<string> := ["virtual ", "static ", "const ", "signed ", "unsigned "]

  /** The anonymous-namespace spellings of Clang, GCC and MSVC. */
  const AnonNamespaces: seq<string> := ["(anonymous namespace)", "{anonymous}", "`anonymous-namespace'"]

  /** Emitted text and the unconsumed remainder of the input. */
  datatype Reduced = Reduced(out: string, rest: string)

  /** `remove_prefix(n)`, clamped to the length of `s`. */
  function Drop(s: string, n: nat): (r: string)
    ensures IsSuffix(r, s)
    ensures n <= |s| ==> |r| == |s| - n
    ensures n > |s| ==> r == ""
  {
    if n <= |s| then s[n..] else ""
  }

  /** Characters at which the reducer stops scanning a segment. */
  predicate IsStop(c: char) {
    c in ":`{(<>"
  }

  /** Text that can form one scope segment: no stop character. */
  predicate SegmentText(s: string) {
    forall j :: 0 <= j < |s| ==> !IsStop(s[j])
  }

  /** Text the reducer may print: no space, no scope separator, no opening bracket. */
  predicate OutputText(s: string) {
    forall j :: 0 <= j < |s| ==> s[j] !in " :`{("
  }

  lemma OutputTextAppend(a: string, b: string)
    requires OutputText(a) && OutputText(b)
    ensures OutputText(a + b)
  {
  }

  /** A segment read so far grows by one character that is not a stop character. */
  lemma SegmentTextStep(sym: string, pos: nat)
    requires pos < |sym| && SegmentText(sym[..pos]) && !IsStop(sym[pos])
    ensures SegmentText(sym[..pos + 1])
  {
    assert sym[..pos + 1] == sym[..pos] + [sym[pos]];
  }

  lemma OutputTextClose(a: string)
    requires OutputText(a)
    ensures OutputText(a + ">")
  {
  }

  lemma OutputTextOpen(a: string, inner: string, after: string)
    requires OutputText(a) && OutputText(inner) && OutputText(after)
    ensures OutputText(a + "<" + inner + after)
  {
  }

  /** A segment as printed: every space is written as `%20`. */
  function Encode(seg: string): (r: string)
    requires SegmentText(seg)
    ensures OutputText(r)
    ensures ' ' !in seg ==> r == seg
  {
    if seg == "" then ""
    else (if seg[0] == ' ' then "%20" else [seg[0]]) + Encode(seg[1..])
  }

  /** Encoding works character by character: it distributes over concatenation. */
  lemma {:induction false} EncodeAppend(a: string, b: string)
    requires SegmentText(a) && SegmentText(b)
    ensures SegmentText(a + b)
    ensures Encode(a + b) == Encode(a) + Encode(b)
    decreases |a|
  {
    if a != "" {
      var head := if a[0] == ' ' then "%20" else [a[0]];
      assert (a + b)[0] == a[0];
      assert (a + b)[1..] == a[1..] + b;
      assert Encode(a) == head + Encode(a[1..]);
      assert Encode(a + b) == head + Encode(a[1..] + b);
      EncodeAppend(a[1..], b);
      Regroup(head, Encode(a[1..]), Encode(b));
    } else {
      assert a + b == b;
    }
  }

  /** A space inside a segment is printed as `%20`, and the text around it as it is encoded. */
  lemma EncodeSpace(a: string, b: string)
    requires SegmentText(a) && SegmentText(b)
    ensures SegmentText(a + " " + b)
    ensures Encode(a + " " + b) == Encode(a) + "%20" + Encode(b)
  {
    EncodeAppend(a, " ");
    EncodeAppend(a + " ", b);
    assert Encode(" ") == "%20";
  }

  /** Every character other than a space is printed as it is. */
  lemma EncodeOther(a: string, c: char, b: string)
    requires SegmentText(a) && SegmentText(b) && !IsStop(c) && c != ' '
    ensures SegmentText(a + [c] + b)
    ensures Encode(a + [c] + b) == Encode(a) + [c] + Encode(b)
  {
    EncodeAppend(a, [c]);
    EncodeAppend(a + [c], b);
    assert Encode([c]) == [c];
  }

  /** What `set_last` prints for the pending segment `last`. */
  function EmitPending(last: string, printed: bool): (r: string)
    requires SegmentText(last)
    ensures OutputText(r)
  {
    if last == "" then "" else (if printed then "." else "") + Encode(last)
  }

  /** The `printed` flag after `set_last`. */
  function AfterPending(last: string, printed: bool): bool {
    printed || last != ""
  }

  /** The first anonymous-namespace spelling (in table order) that starts `sym`. */
  function AnonMatch(sym: string): (r: Option<nat>)
    ensures r.Some? ==> r.value < |AnonNamespaces| && StartsWith(sym, AnonNamespaces[r.value])
    ensures r.None? ==> forall a :: 0 <= a < |AnonNamespaces| ==> !StartsWith(sym, AnonNamespaces[a])
  {
    if StartsWith(sym, AnonNamespaces[0]) then Some(0)
    else if StartsWith(sym, AnonNamespaces[1]) then Some(1)
    else if StartsWith(sym, AnonNamespaces[2]) then Some(2)
    else None
  }

  /**
   * `reduce_symbol`: skips a leading "struct " and scans the rest. The
   * remainder is always a suffix of the input and the output never holds a
   * raw space, a `:` or an opening bracket.
   */
  function Reduce(sym: string): (r: Reduced)
    ensures IsSuffix(r.rest, sym)
    ensures OutputText(r.out)
    decreases |sym|, 1, 0
  {
    var s := if StartsWith(sym, "struct ") then sym[7..] else sym;
    var r := Scan(s, 0, "", false);
    SuffixTransitive(r.rest, s, sym);
    r
  }

  /**
   * The scanning loop of `reduce_symbol`. `sym[..pos]` is the segment read so
   * far, `last` the segment that is still to be printed and `printed` whether
   * anything was printed yet.
   */
  function Scan(sym: string, pos: nat, last: string, printed: bool): (r: Reduced)
    requires pos <= |sym|
    requires SegmentText(sym[..pos]) && SegmentText(last)
    ensures IsSuffix(r.rest, sym)
    ensures OutputText(r.out)
    decreases |sym|, 0, |sym| - pos
  {
    if pos == |sym| then
      Reduced("", sym)
    else
      var c := sym[pos];
      var o := EmitPending(last, printed);
      var p := AfterPending(last, printed);
      if c == ':' then
        // "::" ends a segment.
        var r := Scan(Drop(sym, pos + 2), 0, sym[..pos], p);
        SuffixTransitive(r.rest, Drop(sym, pos + 2), sym);
        OutputTextAppend(o, r.out);
        Reduced(o + r.out, r.rest)
      else if c == '`' || c == '{' || c == '(' then
        match AnonMatch(sym)
        case Some(a) =>
          // An anonymous namespace becomes "$"; the "::" after it is skipped.
          var r := Scan(Drop(sym, |AnonNamespaces[a]| + 2), 0, "$", p);
          SuffixTransitive(r.rest, Drop(sym, |AnonNamespaces[a]| + 2), sym);
          OutputTextAppend(o, r.out);
          Reduced(o + r.out, r.rest)
        case None =>
          // The argument list: nothing printed so far means the global scope.
          var g := if p then "" else "GLOBAL";
          OutputTextAppend(o, g);
          Reduced(o + g, sym)
      else if c == '<' || c == '>' then
        // Flush the segment; a segment that is a single space (as in "> >")
        // stays pending instead.
        var seg := sym[..pos];
        var o2 := if seg != " " then EmitPending(seg, p) else "";
        var p2 := if seg != " " then AfterPending(seg, p) else p;
        var last2 := if seg != " " then "" else seg;
        var tail := sym[pos + 1..];
        SliceSuffix(sym, pos + 1);
        OutputTextAppend(o, o2);
        if c == '>' then
          OutputTextClose(o + o2);
          Reduced(o + o2 + ">", tail)
        else
          var inner := Reduce(tail);
          var r := Scan(inner.rest, 0, last2, p2);
          SuffixTransitive(inner.rest, tail, sym);
          SuffixTransitive(r.rest, inner.rest, sym);
          OutputTextOpen(o + o2, inner.out, r.out);
          Reduced(o + o2 + "<" + inner.out + r.out, r.rest)
      else
        SegmentTextStep(sym, pos);
        Scan(sym, pos + 1, last, printed)
  }

  /** The first qualifier (in table order) that starts `s`. */
  function QualifierAt(s: string): (r: Option<string>)
    ensures r.Some? ==> r.value in FunPrefixes && StartsWith(s, r.value)
    ensures r.None? ==> forall q :: q in FunPrefixes ==> !StartsWith(s, q)
  {
    if StartsWith(s, FunPrefixes[0]) then Some(FunPrefixes[0])
    else if StartsWith(s, FunPrefixes[1]) then Some(FunPrefixes[1])
    else if StartsWith(s, FunPrefixes[2]) then Some(FunPrefixes[2])
    else if StartsWith(s, FunPrefixes[3]) then Some(FunPrefixes[3])
    else if StartsWith(s, FunPrefixes[4]) then Some(FunPrefixes[4])
    else None
  }

  /** Removes qualifiers from the front until none is left. */
  function StripQualifiers(s: string): (r: string)
    ensures IsSuffix(r, s)
    ensures forall q :: q in FunPrefixes ==> !StartsWith(r, q)
    decreases |s|
  {
    match QualifierAt(s)
    case Some(q) =>
      var r := StripQualifiers(s[|q|..]);
      SuffixTransitive(r, s[|q|..], s);
      r
    case None => s
  }

  /** Exclusive bound of `size_t`; the nesting counter wraps modulo it. */
  const SizeMod: nat := 0x1_0000_0000_0000_0000

  /** One step of the template-nesting counter over the character `c`. */
  function NestingStep(nesting: nat, c: char): nat {
    if c == '<' then (nesting + 1) % SizeMod
    else if c == '>' then (nesting + SizeMod - 1) % SizeMod
    else nesting
  }

  /** The template nesting before position `k`: `<` opens, `>` closes, wrapping like `size_t`. */
  function NestingAt(s: string, k: nat): nat
    requires k <= |s|
  {
    if k == 0 then 0 else NestingStep(NestingAt(s, k - 1), s[k - 1])
  }

  /** A space outside every template argument list: where the return type ends. */
  predicate TopLevelSpace(s: string, k: nat) {
    k < |s| && s[k] == ' ' && NestingAt(s, k) == 0
  }

  /**
   * Skips the return type: scans for a space outside template brackets and
   * removes everything up to it together with the pointer, reference and
   * const qualifiers that follow. When no such space exists nothing is
   * removed, because the position the source removes afterwards is a
   * different, still zero, variable.
   */
  function SkipReturnType(s: string, pos: nat, nesting: nat): (r: string)
    requires pos <= |s|
    ensures IsSuffix(r, s)
    decreases |s| - pos
  {
    if pos == |s| then s
    else if s[pos] == ' ' && nesting == 0 then SkipDeclarators(s, pos)
    else if s[pos] == '<' then SkipReturnType(s, pos + 1, (nesting + 1) % SizeMod)
    else if s[pos] == '>' then SkipReturnType(s, pos + 1, (nesting + SizeMod - 1) % SizeMod)
    else SkipReturnType(s, pos + 1, nesting)
  }

  /** `find_first_not_of(" *&", from)`; `|s|` stands for "not found". */
  function FirstNotDeclarator(s: string, from: nat): (k: nat)
    requires from <= |s|
    ensures from <= k <= |s|
    ensures forall j :: from <= j < k ==> s[j] in " *&"
    ensures k < |s| ==> s[k] !in " *&"
    decreases |s| - from
  {
    if from == |s| || s[from] !in " *&" then from else FirstNotDeclarator(s, from + 1)
  }

  /**
   * The do-while loop of the return-type skipper: drop the run of spaces,
   * `*` and `&` (all of the text when only those remain), then repeat after
   * every "const".
   */
  function SkipDeclarators(s: string, from: nat): (r: string)
    requires from <= |s|
    ensures IsSuffix(r, s)
    ensures |r| > 0 ==> r[0] !in " *&"
    ensures !StartsWith(r, "const")
    decreases |s|
  {
    var t := s[FirstNotDeclarator(s, from)..];
    if StartsWith(t, "const") then
      var r := SkipDeclarators(t[5..], 0);
      SuffixTransitive(r, t[5..], s);
      r
    else t
  }

  /** The first top-level space at or after `pos`, or `|s|` when there is none. */
  function FirstTopLevelSpace(s: string, pos: nat): (k: nat)
    requires pos <= |s|
    ensures pos <= k <= |s|
    ensures k < |s| ==> TopLevelSpace(s, k)
    ensures forall j :: pos <= j < k ==> !TopLevelSpace(s, j)
    decreases |s| - pos
  {
    if pos == |s| || TopLevelSpace(s, pos) then pos else FirstTopLevelSpace(s, pos + 1)
  }

  /** Any character but a top-level space only updates the nesting counter. */
  lemma SkipReturnTypeStep(s: string, pos: nat, nesting: nat)
    requires pos < |s| && !(s[pos] == ' ' && nesting == 0)
    ensures SkipReturnType(s, pos, nesting) == SkipReturnType(s, pos + 1, NestingStep(nesting, s[pos]))
  {
  }

  /**
   * From any position, with the counter the prefix gives: the return type
   * ends at the first top-level space, and without one nothing is removed.
   */
  lemma {:induction false} SkipReturnTypeFrom(s: string, pos: nat)
    requires pos <= |s|
    ensures var k := FirstTopLevelSpace(s, pos);
            SkipReturnType(s, pos, NestingAt(s, pos)) == if k == |s| then s else SkipDeclarators(s, k)
    decreases |s| - pos
  {
    if pos < |s| && !TopLevelSpace(s, pos) {
      SkipReturnTypeStep(s, pos, NestingAt(s, pos));
      assert NestingAt(s, pos + 1) == NestingStep(NestingAt(s, pos), s[pos]);
      SkipReturnTypeFrom(s, pos + 1);
    }
  }

  /**
   * Without a space outside the template arguments the signature is kept
   * whole: the position removed at the end is the outer, never advanced one.
   */
  lemma ReturnTypeWithoutSpace(s: string)
    requires forall j :: 0 <= j < |s| ==> !TopLevelSpace(s, j)
    ensures SkipReturnType(s, 0, 0) == s
  {
    SkipReturnTypeFrom(s, 0);
    assert FirstTopLevelSpace(s, 0) == |s|;
  }

  /** The return type ends at the first space outside the template arguments. */
  lemma ReturnTypeEndsAtSpace(s: string, k: nat)
    requires TopLevelSpace(s, k)
    requires forall j :: 0 <= j < k ==> !TopLevelSpace(s, j)
    ensures SkipReturnType(s, 0, 0) == SkipDeclarators(s, k)
  {
    SkipReturnTypeFrom(s, 0);
    assert FirstTopLevelSpace(s, 0) == k;
  }

  /** Drops MSVC's calling-convention marker. */
  function SkipCdecl(s: string): (r: string)
    ensures IsSuffix(r, s)
    ensures r != s <==> StartsWith(s, "__cdecl ")
  {
    if StartsWith(s, "__cdecl ") then s[8..] else s
  }

  /** `render_fun_prefix`: the scope path of a pretty-printed signature. */
  function RenderFunPrefix(prettyFun: string): (r: string)
    ensures OutputText(r)
  {
    Reduce(SkipCdecl(SkipReturnType(StripQualifiers(prettyFun), 0, 0))).out
  }

  /** Scanning over ordinary characters only extends the current segment. */
  lemma {:induction false} ScanSkipsSegment(sym: string, pos: nat, j: nat, last: string, printed: bool)
    requires pos <= j <= |sym|
    requires SegmentText(sym[..j]) && SegmentText(last)
    ensures SegmentText(sym[..pos])
    ensures Scan(sym, pos, last, printed) == Scan(sym, j, last, printed)
    decreases j - pos
  {
    assert forall k :: 0 <= k < pos ==> sym[..pos][k] == sym[..j][k];
    if pos < j {
      assert sym[pos] == sym[..j][pos];
      ScanSkipsSegment(sym, pos + 1, j, last, printed);
    }
  }

  /** `seg::t`: the pending segment is printed and `seg` becomes the pending one. */
  lemma ScopeSeparator(seg: string, t: string, last: string, printed: bool)
    requires SegmentText(seg) && SegmentText(last)
    ensures Scan(seg + "::" + t, 0, last, printed)
         == var r := Scan(t, 0, seg, AfterPending(last, printed));
            Reduced(EmitPending(last, printed) + r.out, r.rest)
  {
    var sym := seg + "::" + t;
    assert sym[..|seg|] == seg;
    ScanSkipsSegment(sym, 0, |seg|, last, printed);
    assert sym[|seg|] == ':';
    assert Drop(sym, |seg| + 2) == t;
  }

  /** `seg(args)`: the scan stops at the argument list and returns it with `seg`. */
  lemma ArgumentList(seg: string, args: string, last: string, printed: bool)
    requires seg != "" && SegmentText(seg) && SegmentText(last)
    ensures Scan(seg + "(" + args, 0, last, printed)
         == Reduced(EmitPending(last, printed) + (if AfterPending(last, printed) then "" else "GLOBAL"),
                    seg + "(" + args)
  {
    var sym := seg + "(" + args;
    assert sym[..|seg|] == seg;
    ScanSkipsSegment(sym, 0, |seg|, last, printed);
    assert sym[|seg|] == '(';
    assert sym[0] == seg[0];
    assert AnonMatch(sym) == None by {
      forall a | 0 <= a < |AnonNamespaces|
        ensures !StartsWith(sym, AnonNamespaces[a])
      {
        assert IsStop(AnonNamespaces[a][0]);
      }
    }
  }

  /**
   * Each anonymous-namespace spelling becomes the single pending segment "$"
   * and the "::" after it is consumed.
   */
  lemma AnonymousNamespace(a: nat, t: string, last: string, printed: bool)
    requires a < |AnonNamespaces|
    requires SegmentText(last)
    ensures Scan(AnonNamespaces[a] + "::" + t, 0, last, printed)
         == var r := Scan(t, 0, "$", AfterPending(last, printed));
            Reduced(EmitPending(last, printed) + r.out, r.rest)
  {
    var sym := AnonNamespaces[a] + "::" + t;
    var n := |AnonNamespaces[a]|;
    assert sym[..n] == AnonNamespaces[a];
    assert sym[0] == AnonNamespaces[a][0];
    assert AnonMatch(sym) == Some(a) by {
      forall b | 0 <= b < |AnonNamespaces| && b != a
        ensures !StartsWith(sym, AnonNamespaces[b])
      {
        assert AnonNamespaces[b][0] != AnonNamespaces[a][0];
      }
    }
    assert Drop(sym, n + 2) == t;
  }

  /** The reducer's entry point only differs from the loop by the "struct " skip. */
  lemma ReduceNoStruct(sym: string)
    requires !StartsWith(sym, "struct ")
    ensures Reduce(sym) == Scan(sym, 0, "", false)
  {
  }

  /** No two qualifiers agree on their first two characters. */
  lemma QualifiersDiffer(p: string, q: string)
    requires p in FunPrefixes && q in FunPrefixes && p != q
    ensures p[0] != q[0] || p[1] != q[1]
  {
  }

  /** A leading qualifier is dropped without changing what follows. */
  lemma StripQualifier(q: string, s: string)
    requires q in FunPrefixes
    ensures StripQualifiers(q + s) == StripQualifiers(s)
  {
    var t := q + s;
    assert t[..|q|] == q;
    assert QualifierAt(t) == Some(q) by {
      forall p | p in FunPrefixes && p != q
        ensures !StartsWith(t, p)
      {
        if StartsWith(t, p) {
          assert p[0] == t[0] == q[0] && p[1] == t[1] == q[1];
          QualifiersDiffer(p, q);
        }
      }
    }
    assert t[|q|..] == s;
  }

  /** Characters other than a space and angle brackets do not end the return type. */
  lemma {:induction false} SkipReturnTypeWalk(s: string, pos: nat, j: nat, nesting: nat)
    requires pos <= j <= |s|
    requires forall k :: pos <= k < j ==> s[k] !in " <>"
    ensures SkipReturnType(s, pos, nesting) == SkipReturnType(s, j, nesting)
    decreases j - pos
  {
    if pos < j {
      SkipReturnTypeWalk(s, pos + 1, j, nesting);
    }
  }

  /**
   * `seg<tail`: the segment is flushed, `<` printed, the nested argument text
   * reduced by a recursive call, and scanning resumes after it.
   */
  lemma TemplateOpen(seg: string, tail: string, last: string, printed: bool)
    requires SegmentText(seg) && SegmentText(last) && seg != " "
    ensures Scan(seg + "<" + tail, 0, last, printed)
         == var p := AfterPending(last, printed);
            var inner := Reduce(tail);
            var r := Scan(inner.rest, 0, "", AfterPending(seg, p));
            Reduced(EmitPending(last, printed) + EmitPending(seg, p) + "<" + inner.out + r.out, r.rest)
  {
    var sym := seg + "<" + tail;
    BracketLayout(seg, '<', tail);
    ScanSkipsSegment(sym, 0, |seg|, last, printed);
    ScanOpenAt(sym, |seg|, last, printed);
  }

  /** Where the segment, the bracket and the tail sit in `seg + [c] + tail`. */
  lemma BracketLayout(seg: string, c: char, tail: string)
    ensures var sym := seg + [c] + tail;
            |seg| < |sym| && sym[..|seg|] == seg && sym[|seg|] == c && sym[|seg| + 1..] == tail
  {
    var sym := seg + [c] + tail;
    assert sym[..|seg|] == seg;
    assert sym[|seg| + 1..] == tail;
  }

  /** One `<` step of the scan. */
  lemma ScanOpenAt(sym: string, pos: nat, last: string, printed: bool)
    requires pos < |sym| && sym[pos] == '<'
    requires SegmentText(sym[..pos]) && SegmentText(last) && sym[..pos] != " "
    ensures Scan(sym, pos, last, printed)
         == var p := AfterPending(last, printed);
            var inner := Reduce(sym[pos + 1..]);
            var r := Scan(inner.rest, 0, "", AfterPending(sym[..pos], p));
            Reduced(EmitPending(last, printed) + EmitPending(sym[..pos], p) + "<" + inner.out + r.out, r.rest)
  {
  }

  /** `seg>tail`: the segment is flushed, `>` printed and the scan returns `tail`. */
  lemma TemplateClose(seg: string, tail: string, last: string, printed: bool)
    requires SegmentText(seg) && SegmentText(last) && seg != " "
    ensures Scan(seg + ">" + tail, 0, last, printed)
         == Reduced(EmitPending(last, printed) + EmitPending(seg, AfterPending(last, printed)) + ">", tail)
  {
    var sym := seg + ">" + tail;
    assert sym[..|seg|] == seg;
    ScanSkipsSegment(sym, 0, |seg|, last, printed);
    assert sym[|seg|] == '>';
    assert sym[|seg| + 1..] == tail;
  }

  /** The space some compilers put between closing brackets, "> >", prints nothing. */
  lemma TemplateCloseAfterSpace(tail: string, printed: bool)
    ensures Scan(" >" + tail, 0, "", printed) == Reduced(">", tail)
  {
    var sym := " >" + tail;
    assert sym[..1] == " ";
    ScanSkipsSegment(sym, 0, 1, "", printed);
    assert sym[1] == '>';
    assert sym[2..] == tail;
  }

  lemma ReduceStruct(s: string)
    ensures Reduce("struct " + s) == Scan(s, 0, "", false)
  {
    assert ("struct " + s)[..7] == "struct ";
    assert ("struct " + s)[7..] == s;
  }

  /**
   * `ret name`: a return type without brackets or spaces is skipped together
   * with the space after it.
   */
  lemma PlainReturnType(ret: string, rest: string)
    requires forall k :: 0 <= k < |ret| ==> ret[k] !in " <>"
    requires rest != "" && rest[0] !in " *&" && !StartsWith(rest, "const")
    ensures SkipReturnType(ret + " " + rest, 0, 0) == rest
  {
    var s := ret + " " + rest;
    SkipReturnTypeWalk(s, 0, |ret|, 0);
    assert s[|ret|] == ' ';
    assert FirstNotDeclarator(s, |ret|) == |ret| + 1 by {
      assert s[|ret| + 1] == rest[0];
    }
    assert s[|ret| + 1..] == rest;
  }

  /** Where the brackets and the space sit in `ret<arg> rest`. */
  lemma TemplateSignatureLayout(ret: string, arg: string, rest: string)
    requires forall k :: 0 <= k < |ret| ==> ret[k] !in " <>"
    requires forall k :: 0 <= k < |arg| ==> arg[k] !in " <>"
    ensures var s := ret + "<" + arg + "> " + rest;
            var i, j := |ret|, |ret| + 1 + |arg|;
            && j + 2 <= |s|
            && (forall k :: 0 <= k < i ==> s[k] !in " <>")
            && (forall k :: i < k < j ==> s[k] !in " <>")
            && s[i] == '<' && s[j] == '>' && s[j + 1] == ' '
            && s[j + 2..] == rest
  {
    var s := ret + "<" + arg + "> " + rest;
    var i, j := |ret|, |ret| + 1 + |arg|;
    assert forall k :: 0 <= k < i ==> s[k] == ret[k];
    assert forall k :: i < k < j ==> s[k] == arg[k - i - 1];
    assert s[j + 2..] == rest;
  }

  /**
   * `ret<arg> name`: a space inside the brackets would not count, the one
   * after the closing bracket does.
   */
  lemma TemplateReturnType(ret: string, arg: string, rest: string)
    requires forall k :: 0 <= k < |ret| ==> ret[k] !in " <>"
    requires forall k :: 0 <= k < |arg| ==> arg[k] !in " <>"
    requires rest != "" && rest[0] !in " *&" && !StartsWith(rest, "const")
    ensures SkipReturnType(ret + "<" + arg + "> " + rest, 0, 0) == rest
  {
    TemplateSignatureLayout(ret, arg, rest);
    TemplateReturnAt(ret + "<" + arg + "> " + rest, |ret|, |ret| + 1 + |arg|);
  }

  /** The positional form: `<` at `i`, the matching `>` at `j`, then a space and the name. */
  lemma TemplateReturnAt(s: string, i: nat, j: nat)
    requires i < j && j + 2 < |s|
    requires forall k :: 0 <= k < i ==> s[k] !in " <>"
    requires s[i] == '<' && s[j] == '>' && s[j + 1] == ' '
    requires forall k :: i < k < j ==> s[k] !in " <>"
    requires s[j + 2] !in " *&" && !StartsWith(s[j + 2..], "const")
    ensures SkipReturnType(s, 0, 0) == s[j + 2..]
  {
    SkipReturnTypeWalk(s, 0, i, 0);
    TemplateArgumentWalk(s, i, j);
    SpaceThenName(s, j + 1);
  }

  lemma SpaceThenName(s: string, k: nat)
    requires k + 1 < |s| && s[k] == ' ' && s[k + 1] !in " *&" && !StartsWith(s[k + 1..], "const")
    ensures SkipReturnType(s, k, 0) == s[k + 1..]
  {
    assert FirstNotDeclarator(s, k) == k + 1;
  }

  /** A bracketed argument without inner brackets leaves the nesting where it was. */
  lemma TemplateArgumentWalk(s: string, i: nat, j: nat)
    requires i < j < |s| && s[i] == '<' && s[j] == '>'
    requires forall k :: i < k < j ==> s[k] !in " <>"
    ensures SkipReturnType(s, i, 0) == SkipReturnType(s, j + 1, 0)
  {
    assert SkipReturnType(s, i, 0) == SkipReturnType(s, i + 1, 1);
    SkipReturnTypeWalk(s, i + 1, j, 1);
  }
}
