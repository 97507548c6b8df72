/**
 * Worked signatures for the symbol reducer: the examples from the source's
 * own comments, the free-function case and the compiler-specific spellings.
 */
module SymbolExamples {
  import opened Base
  import opened Symbols

  lemma NotPrefix(s: string, p: string, k: nat)
    requires k < |p| && k < |s| && s[k] != p[k]
    ensures !StartsWith(s, p)
  {
    if |p| <= |s| {
      assert s[..|p|][k] == s[k];
    }
  }

  lemma NotStruct(s: string)
    requires |s| > 0 && s[0] != 's'
    ensures !StartsWith(s, "struct ")
  {
    NotPrefix(s, "struct ", 0);
  }

  lemma NoQualifier(s: string)
    requires forall q :: q in FunPrefixes ==> !StartsWith(s, q)
    ensures StripQualifiers(s) == s
  {
  }

  /** The segment after the last "::" is left for the caller. */
  lemma LastSegmentPending(c: string, last: string)
    requires SegmentText(c) && SegmentText(last)
    ensures Scan(c, 0, last, true) == Reduced("", c)
  {
    ScanSkipsSegment(c, 0, |c|, last, true);
  }

  lemma OneScopeLeft(a: string, b: string, c: string)
    requires SegmentText(a) && SegmentText(b) && SegmentText(c)
    requires a != "" && ' ' !in a
    ensures Scan(b + "::" + c, 0, a, false) == Reduced(a, c)
  {
    var r := Scan(c, 0, b, true);
    assert r == Reduced("", c) by {
      LastSegmentPending(c, b);
    }
    assert EmitPending(a, false) == a;
    assert Scan(b + "::" + c, 0, a, false) == Reduced(EmitPending(a, false) + r.out, r.rest) by {
      ScopeSeparator(b, c, a, false);
    }
  }

  /** `a::b::c` with no argument list prints only `a`. */
  lemma TwoScopes(a: string, b: string, c: string)
    requires SegmentText(a) && SegmentText(b) && SegmentText(c)
    requires a != "" && ' ' !in a && a[0] != 's'
    ensures Reduce(a + "::" + b + "::" + c) == Reduced(a, c)
  {
    var s := a + "::" + b + "::" + c;
    assert Reduce(s) == Scan(s, 0, "", false) by {
      NotStruct(s);
      ReduceNoStruct(s);
    }
    var r := Scan(b + "::" + c, 0, a, false);
    assert r == Reduced(a, c) by {
      OneScopeLeft(a, b, c);
    }
    assert Scan(s, 0, "", false) == Reduced(EmitPending("", false) + r.out, r.rest) by {
      Regroup(a + "::", b + "::", c);
      Regroup(a + "::", b, "::");
      ScopeSeparator(a, b + "::" + c, "", false);
    }
  }

  /** The doc comment's "ns::foo::bar": the code prints "ns", not "ns.foo". */
  lemma ScopeWithoutArguments()
    ensures Reduce("ns" + "::" + "foo" + "::" + "bar") == Reduced("ns", "bar")
  {
    TwoScopes("ns", "foo", "bar");
  }

  lemma FunctionPending(f: string, args: string, b: string)
    requires SegmentText(f) && SegmentText(b) && f != "" && b != "" && ' ' !in b
    ensures Scan(f + "(" + args, 0, b, true) == Reduced("." + b, f + "(" + args)
  {
    ArgumentList(f, args, b, true);
    assert EmitPending(b, true) == "." + b;
  }

  lemma FunctionAfterScope(a: string, b: string, f: string, args: string)
    requires SegmentText(a) && SegmentText(b) && SegmentText(f)
    requires a != "" && b != "" && f != "" && ' ' !in a && ' ' !in b
    ensures Scan(b + "::" + f + "(" + args, 0, a, false) == Reduced(a + "." + b, f + "(" + args)
  {
    var r := Scan(f + "(" + args, 0, b, true);
    assert r == Reduced("." + b, f + "(" + args) by {
      FunctionPending(f, args, b);
    }
    assert EmitPending(a, false) == a;
    assert Scan(b + "::" + f + "(" + args, 0, a, false) == Reduced(EmitPending(a, false) + r.out, r.rest) by {
      assert b + "::" + f + "(" + args == b + "::" + (f + "(" + args);
      ScopeSeparator(b, f + "(" + args, a, false);
    }
  }

  /** `a::b::f(args)` prints the scope path `a.b` and leaves `f(args)`. */
  lemma ScopedFunction(a: string, b: string, f: string, args: string)
    requires SegmentText(a) && SegmentText(b) && SegmentText(f)
    requires a != "" && b != "" && f != "" && ' ' !in a && ' ' !in b && a[0] != 's'
    ensures Reduce(a + "::" + b + "::" + f + "(" + args) == Reduced(a + "." + b, f + "(" + args)
  {
    var s := a + "::" + b + "::" + f + "(" + args;
    assert Reduce(s) == Scan(s, 0, "", false) by {
      NotStruct(s);
      ReduceNoStruct(s);
    }
    var r := Scan(b + "::" + f + "(" + args, 0, a, false);
    assert r == Reduced(a + "." + b, f + "(" + args) by {
      FunctionAfterScope(a, b, f, args);
    }
    assert Scan(s, 0, "", false) == Reduced(EmitPending("", false) + r.out, r.rest) by {
      assert s == a + "::" + (b + "::" + f + "(" + args);
      ScopeSeparator(a, b + "::" + f + "(" + args, "", false);
    }
  }

  /** Chains the four stages of `render_fun_prefix`. */
  lemma Stages(p: string, t: string, n: string, m: string, out: string)
    requires StripQualifiers(p) == t
    requires SkipReturnType(t, 0, 0) == n
    requires SkipCdecl(n) == m
    requires Reduce(m).out == out
    ensures RenderFunPrefix(p) == out
  {
  }

  /** No qualifier can start a text whose first characters differ from all of them. */
  predicate QualifierFreeHead(t: string) {
    && |t| >= 3
    && !(t[0] == 'v' && t[1] == 'i')
    && !(t[0] == 's' && t[1] == 't' && t[2] == 'a')
    && !(t[0] == 'c' && t[1] == 'o')
    && !(t[0] == 's' && t[1] == 'i')
    && !(t[0] == 'u' && t[1] == 'n')
  }

  lemma HeadsDiffer(t: string)
    requires QualifierFreeHead(t)
    ensures StripQualifiers(t) == t
  {
    forall i | 0 <= i < |FunPrefixes| ensures !StartsWith(t, FunPrefixes[i]) {
      var p := FunPrefixes[i];
      if t[0] != p[0] {
        NotPrefix(t, p, 0);
      } else if t[1] != p[1] {
        NotPrefix(t, p, 1);
      } else {
        NotPrefix(t, p, 2);
      }
    }
    assert QualifierAt(t) == None;
  }

  lemma HeadKept(t: string, u: string)
    requires QualifierFreeHead(t)
    ensures QualifierFreeHead(t + u)
  {
    assert (t + u)[0] == t[0] && (t + u)[1] == t[1] && (t + u)[2] == t[2];
  }

  /** A return type without spaces or template brackets. */
  predicate PlainType(ret: string) {
    forall k :: 0 <= k < |ret| ==> ret[k] !in " <>"
  }

  /**
   * A qualified name that starts with none of a declarator, "const",
   * "__cdecl " or "struct ".
   */
  predicate NameStart(n: string) {
    n != "" && n[0] !in " *&_cs"
  }

  lemma NameStartFacts(n: string)
    requires NameStart(n)
    ensures n[0] !in " *&" && !StartsWith(n, "const")
    ensures SkipCdecl(n) == n
    ensures Reduce(n) == Scan(n, 0, "", false)
  {
    NotPrefix(n, "const", 0);
    NotPrefix(n, "__cdecl ", 0);
    NotStruct(n);
    ReduceNoStruct(n);
  }

  /** A leading qualifier is removed when what follows starts with none. */
  lemma OneQualifier(q: string, t: string)
    requires q in FunPrefixes && QualifierFreeHead(t)
    ensures StripQualifiers(q + t) == t
  {
    HeadsDiffer(t);
    StripQualifier(q, t);
  }

  /** Once the qualifiers are gone, `ret name` leaves only the name for the reducer. */
  lemma PlainStages(p: string, ret: string, n: string)
    requires StripQualifiers(p) == ret + " " + n
    requires PlainType(ret) && NameStart(n)
    ensures RenderFunPrefix(p) == Reduce(n).out
  {
    var t := ret + " " + n;
    assert SkipReturnType(t, 0, 0) == n by {
      NameStartFacts(n);
      PlainReturnType(ret, n);
    }
    assert SkipCdecl(n) == n by {
      NameStartFacts(n);
    }
    Stages(p, t, n, n, Reduce(n).out);
  }

  /** Once the qualifiers are gone, `ret<arg> name` leaves only the name. */
  lemma TemplateStages(p: string, ret: string, arg: string, n: string)
    requires StripQualifiers(p) == ret + "<" + arg + "> " + n
    requires PlainType(ret) && PlainType(arg) && NameStart(n)
    ensures RenderFunPrefix(p) == Reduce(n).out
  {
    var t := ret + "<" + arg + "> " + n;
    assert SkipReturnType(t, 0, 0) == n by {
      NameStartFacts(n);
      TemplateReturnType(ret, arg, n);
    }
    assert SkipCdecl(n) == n by {
      NameStartFacts(n);
    }
    Stages(p, t, n, n, Reduce(n).out);
  }

  /** Qualifier removal in front of a return type that is not itself a qualifier. */
  lemma QualifierThenType(q: string, ret: string, rest: string)
    requires q in FunPrefixes && QualifierFreeHead(ret)
    ensures StripQualifiers(q + ret + rest) == ret + rest
  {
    HeadKept(ret, rest);
    OneQualifier(q, ret + rest);
    Regroup(q, ret, rest);
  }

  lemma UnqualifiedType(ret: string, rest: string)
    requires QualifierFreeHead(ret)
    ensures StripQualifiers(ret + rest) == ret + rest
  {
    HeadKept(ret, rest);
    HeadsDiffer(ret + rest);
  }

  /** `a::b::f(args)` as a name handed to the reducer. */
  lemma ScopedName(a: string, b: string, f: string, args: string)
    requires SegmentText(a) && SegmentText(b) && SegmentText(f)
    requires a != "" && b != "" && f != "" && ' ' !in a && ' ' !in b && a[0] !in "*&_cs"
    ensures NameStart(a + "::" + b + "::" + f + "(" + args)
    ensures Reduce(a + "::" + b + "::" + f + "(" + args).out == a + "." + b
  {
    assert (a + "::" + b + "::" + f + "(" + args)[0] == a[0];
    ScopedFunction(a, b, f, args);
  }

  /** `f(args)` with no scope in front of it. */
  lemma GlobalName(f: string, args: string)
    requires SegmentText(f) && f != "" && f[0] !in " *&_cs"
    ensures NameStart(f + "(" + args)
    ensures Reduce(f + "(" + args).out == "GLOBAL"
  {
    var n := f + "(" + args;
    assert n[0] == f[0];
    assert Reduce(n) == Scan(n, 0, "", false) by {
      NameStartFacts(n);
    }
    ArgumentList(f, args, "", false);
  }

  /**
   * `ret<arg> a::b::f(args)` after the qualifiers, the shape of the source's
   * comment example "virtual std::vector<int> my::namespace::foo(int)": the
   * scope path is `a.b` ("my.namespace").
   */
  lemma TemplateReturnScope(p: string, ret: string, arg: string, a: string, b: string, f: string, args: string)
    requires StripQualifiers(p) == ret + "<" + arg + "> " + (a + "::" + b + "::" + f + "(" + args)
    requires PlainType(ret) && PlainType(arg)
    requires SegmentText(a) && SegmentText(b) && SegmentText(f)
    requires a != "" && b != "" && f != "" && ' ' !in a && ' ' !in b && a[0] !in "*&_cs"
    ensures RenderFunPrefix(p) == a + "." + b
  {
    ScopedName(a, b, f, args);
    TemplateStages(p, ret, arg, a + "::" + b + "::" + f + "(" + args);
  }

  /**
   * A qualifier, a return type with one template argument and a two-level
   * scope, as in "virtual std::vector<int> my::namespace::foo(int)": the
   * class name is the scope path.
   */
  lemma QualifiedTemplateScope(p: string, q: string, ret: string, arg: string, a: string, b: string, f: string, args: string)
    requires p == q + (ret + ("<" + (arg + "> " + (a + "::" + b + "::" + f + "(" + args))))
    requires q in FunPrefixes && QualifierFreeHead(ret)
    requires PlainType(ret) && PlainType(arg)
    requires SegmentText(a) && SegmentText(b) && SegmentText(f)
    requires a != "" && b != "" && f != "" && ' ' !in a && ' ' !in b && a[0] !in "*&_cs"
    ensures RenderFunPrefix(p) == a + "." + b
  {
    var t := a + "::" + b + "::" + f + "(" + args;
    assert StripQualifiers(p) == ret + "<" + arg + "> " + t by {
      StripTemplateSignature(p, q, ret, arg + "> " + t);
      RegroupTemplate(ret, arg, t);
    }
    TemplateReturnScope(p, ret, arg, a, b, f, args);
  }

  lemma RegroupTemplate(ret: string, arg: string, t: string)
    ensures ret + "<" + (arg + "> " + t) == ret + "<" + arg + "> " + t
  {
  }

  lemma StripTemplateSignature(p: string, q: string, ret: string, tail: string)
    requires p == q + (ret + ("<" + tail))
    requires q in FunPrefixes && QualifierFreeHead(ret)
    ensures StripQualifiers(p) == ret + "<" + tail
  {
    Regroup(q, ret, "<" + tail);
    QualifierThenType(q, ret, "<" + tail);
    Regroup(ret, "<", tail);
  }

  /** `ret a::b::f(args)` after the qualifiers, e.g. "void ns::Foo::bar(int)": the scope path is `a.b`. */
  lemma PlainReturnScope(p: string, ret: string, a: string, b: string, f: string, args: string)
    requires StripQualifiers(p) == ret + " " + (a + "::" + b + "::" + f + "(" + args)
    requires PlainType(ret)
    requires SegmentText(a) && SegmentText(b) && SegmentText(f)
    requires a != "" && b != "" && f != "" && ' ' !in a && ' ' !in b && a[0] !in "*&_cs"
    ensures RenderFunPrefix(p) == a + "." + b
  {
    ScopedName(a, b, f, args);
    PlainStages(p, ret, a + "::" + b + "::" + f + "(" + args);
  }

  /** `ret f(args)` after the qualifiers, e.g. "int foo(int)": the global namespace prints "GLOBAL". */
  lemma GlobalFunction(p: string, ret: string, f: string, args: string)
    requires StripQualifiers(p) == ret + " " + (f + "(" + args)
    requires PlainType(ret)
    requires SegmentText(f) && f != "" && f[0] !in " *&_cs"
    ensures RenderFunPrefix(p) == "GLOBAL"
  {
    GlobalName(f, args);
    PlainStages(p, ret, f + "(" + args);
  }

  /** An empty segment before the argument list prints nothing. */
  lemma EmptyScopeThenFunction(f: string, args: string)
    requires SegmentText(f) && f != ""
    ensures Scan("::" + f + "(" + args, 0, "", true) == Reduced("", f + "(" + args)
  {
    assert "::" + f + "(" + args == "" + "::" + (f + "(" + args);
    ScopeSeparator("", f + "(" + args, "", true);
    ArgumentList(f, args, "", true);
  }

  /** `c>tail` at the start of a template argument: `c>` is printed and `tail` returned. */
  lemma ClosingArgument(c: string, tail: string)
    requires SegmentText(c) && c != "" && ' ' !in c && c[0] != 's'
    ensures Reduce(c + ">" + tail) == Reduced(c + ">", tail)
  {
    var s := c + ">" + tail;
    assert s[0] == c[0];
    NotStruct(s);
    ReduceNoStruct(s);
    TemplateClose(c, tail, "", false);
  }

  /** `seg<tail` with the reductions of the argument and of what follows it given. */
  lemma TemplateStep(seg: string, tail: string, last: string, printed: bool,
                     innerOut: string, mid: string, rOut: string, rest: string)
    requires SegmentText(seg) && SegmentText(last) && seg != "" && seg != " "
    requires Reduce(tail) == Reduced(innerOut, mid)
    requires Scan(mid, 0, "", true) == Reduced(rOut, rest)
    ensures Scan(seg + "<" + tail, 0, last, printed)
         == Reduced(EmitPending(last, printed) + EmitPending(seg, AfterPending(last, printed)) + "<" + innerOut + rOut, rest)
  {
    TemplateOpen(seg, tail, last, printed);
  }

  /** `u<c> >tail` after the pending segment `b`: prints `b.u<c>>`. */
  lemma InnerTemplate(b: string, u: string, c: string, tail: string)
    requires SegmentText(b) && SegmentText(u) && SegmentText(c)
    requires b != "" && u != "" && c != "" && ' ' !in b && ' ' !in u && ' ' !in c && c[0] != 's'
    ensures Scan(u + "<" + (c + ">" + (" >" + tail)), 0, b, false) == Reduced(b + "." + u + "<" + (c + ">") + ">", tail)
  {
    var o := EmitPending(b, false) + EmitPending(u, true);
    assert Scan(u + "<" + (c + ">" + (" >" + tail)), 0, b, false) == Reduced(o + "<" + (c + ">") + ">", tail) by {
      InnerTemplateSteps(b, u, c, tail);
    }
    assert o == b + "." + u by {
      PendingScope(b, u);
    }
  }

  lemma InnerTemplateSteps(b: string, u: string, c: string, tail: string)
    requires SegmentText(b) && SegmentText(u) && SegmentText(c)
    requires b != "" && u != "" && c != "" && ' ' !in b && ' ' !in u && ' ' !in c && c[0] != 's'
    ensures Scan(u + "<" + (c + ">" + (" >" + tail)), 0, b, false)
         == Reduced(EmitPending(b, false) + EmitPending(u, true) + "<" + (c + ">") + ">", tail)
  {
    assert Reduce(c + ">" + (" >" + tail)) == Reduced(c + ">", " >" + tail) by {
      ClosingArgument(c, " >" + tail);
    }
    assert Scan(" >" + tail, 0, "", true) == Reduced(">", tail) by {
      TemplateCloseAfterSpace(tail, true);
    }
    TemplateStep(u, c + ">" + (" >" + tail), b, false, c + ">", " >" + tail, ">", tail);
  }

  /** The first segment is printed as is, the next one after a dot. */
  lemma PendingScope(b: string, u: string)
    requires SegmentText(b) && SegmentText(u)
    requires b != "" && u != "" && ' ' !in b && ' ' !in u
    ensures EmitPending(b, false) + EmitPending(u, true) == b + "." + u
  {
    assert EmitPending(b, false) == b;
    assert EmitPending(u, true) == "." + u;
    assert b + ("." + u) == b + "." + u;
  }

  /** `b::u<c> >tail` as a template argument: prints `b.u<c>>` and returns `tail`. */
  lemma NestedArgument(b: string, u: string, c: string, tail: string)
    requires SegmentText(b) && SegmentText(u) && SegmentText(c)
    requires b != "" && u != "" && c != "" && ' ' !in b && ' ' !in u && ' ' !in c && b[0] != 's' && c[0] != 's'
    ensures Reduce(b + "::" + (u + "<" + (c + ">" + (" >" + tail)))) == Reduced(b + "." + u + "<" + (c + ">") + ">", tail)
  {
    var x := u + "<" + (c + ">" + (" >" + tail));
    var s := b + "::" + x;
    assert Reduce(s) == Scan(s, 0, "", false) by {
      assert s[0] == b[0];
      NotStruct(s);
      ReduceNoStruct(s);
    }
    assert Scan(x, 0, b, false) == Reduced(b + "." + u + "<" + (c + ">") + ">", tail) by {
      InnerTemplate(b, u, c, tail);
    }
    ScopeSeparator(b, x, "", false);
  }

  lemma OuterTemplateSteps(a: string, t: string, inner: string, innerOut: string, tail: string, f: string, args: string)
    requires SegmentText(a) && SegmentText(t) && SegmentText(f)
    requires a != "" && t != "" && f != "" && ' ' !in a && ' ' !in t
    requires tail == "::" + f + "(" + args
    requires Reduce(inner) == Reduced(innerOut, tail)
    ensures Scan(t + "<" + inner, 0, a, false)
         == Reduced(EmitPending(a, false) + EmitPending(t, true) + "<" + innerOut + "", f + "(" + args)
  {
    assert Scan(tail, 0, "", true) == Reduced("", f + "(" + args) by {
      EmptyScopeThenFunction(f, args);
    }
    TemplateStep(t, inner, a, false, innerOut, tail, "", f + "(" + args);
  }

  /**
   * `a::t<b::u<c> >::f(args)`, the nested template of the source's comment
   * on flushing, with the space between the closing brackets that some
   * compilers print: the output is `a.t<b.u<c>>`.
   */
  lemma NestedTemplate(a: string, t: string, b: string, u: string, c: string, f: string, args: string)
    requires SegmentText(a) && SegmentText(t) && SegmentText(b) && SegmentText(u) && SegmentText(c) && SegmentText(f)
    requires a != "" && t != "" && b != "" && u != "" && c != "" && f != ""
    requires ' ' !in a && ' ' !in t && ' ' !in b && ' ' !in u && ' ' !in c
    requires a[0] != 's' && b[0] != 's' && c[0] != 's'
    ensures var inner := b + "::" + (u + "<" + (c + ">" + (" >" + ("::" + f + "(" + args))));
            var innerOut := b + "." + u + "<" + (c + ">") + ">";
            Reduce(a + "::" + (t + "<" + inner)) == Reduced(a + "." + t + "<" + innerOut, f + "(" + args)
  {
    var tail := "::" + f + "(" + args;
    var innerOut := b + "." + u + "<" + (c + ">") + ">";
    var inner := b + "::" + (u + "<" + (c + ">" + (" >" + tail)));
    var x := t + "<" + inner;
    var s := a + "::" + x;
    assert Reduce(s) == Scan(s, 0, "", false) by {
      assert s[0] == a[0];
      NotStruct(s);
      ReduceNoStruct(s);
    }
    var o := EmitPending(a, false) + EmitPending(t, true);
    assert Scan(x, 0, a, false) == Reduced(o + "<" + innerOut + "", f + "(" + args) by {
      NestedArgument(b, u, c, tail);
      OuterTemplateSteps(a, t, inner, innerOut, tail, f, args);
    }
    assert o == a + "." + t by {
      PendingScope(a, t);
    }
    assert Scan(s, 0, "", false) == Reduced(EmitPending("", false) + (o + "<" + innerOut + ""), f + "(" + args) by {
      ScopeSeparator(a, x, "", false);
    }
  }

  /** A name preceded by MSVC's calling-convention marker reaches the reducer without it. */
  lemma CdeclStages(p: string, ret: string, m: string)
    requires StripQualifiers(p) == ret + " " + ("__cdecl " + m)
    requires PlainType(ret)
    ensures RenderFunPrefix(p) == Reduce(m).out
  {
    var n := "__cdecl " + m;
    assert SkipReturnType(ret + " " + n, 0, 0) == n by {
      assert n[0] == '_';
      NotPrefix(n, "const", 0);
      PlainReturnType(ret, n);
    }
    assert SkipCdecl(n) == m by {
      assert n[..8] == "__cdecl ";
      assert n[8..] == m;
    }
    Stages(p, ret + " " + n, n, m, Reduce(m).out);
  }

  /** `struct c>tail` as a template argument: the keyword is dropped. */
  lemma StructArgument(c: string, tail: string)
    requires SegmentText(c) && c != "" && ' ' !in c
    ensures Reduce("struct " + (c + ">" + tail)) == Reduced(c + ">", tail)
  {
    ReduceStruct(c + ">" + tail);
    TemplateClose(c, tail, "", false);
    assert EmitPending("", false) == "";
    assert EmitPending(c, AfterPending("", false)) == c;
    assert "" + c + ">" == c + ">";
  }

  lemma AnonymousScopeSteps(a: string, t: string, z: string, innerOut: string, tail: string, f: string, args: string)
    requires SegmentText(a) && SegmentText(t) && SegmentText(f)
    requires a != "" && t != "" && f != "" && ' ' !in a && ' ' !in t
    requires tail == "::" + f + "(" + args
    requires Reduce(z) == Reduced(innerOut, tail)
    ensures Scan(a + "::" + (t + "<" + z), 0, "$", false)
         == Reduced(EmitPending("$", false) + (EmitPending(a, true) + EmitPending(t, true) + "<" + innerOut + ""), f + "(" + args)
  {
    var r := Scan(t + "<" + z, 0, a, true);
    assert r == Reduced(EmitPending(a, true) + EmitPending(t, true) + "<" + innerOut + "", f + "(" + args) by {
      OuterStep(a, t, z, innerOut, tail, f, args);
    }
    assert AfterPending("$", false);
    assert Scan(a + "::" + (t + "<" + z), 0, "$", false) == Reduced(EmitPending("$", false) + r.out, r.rest) by {
      ScopeSeparator(a, t + "<" + z, "$", false);
    }
  }

  lemma OuterStep(a: string, t: string, z: string, innerOut: string, tail: string, f: string, args: string)
    requires SegmentText(a) && SegmentText(t) && SegmentText(f)
    requires a != "" && t != "" && f != "" && ' ' !in a && ' ' !in t
    requires tail == "::" + f + "(" + args
    requires Reduce(z) == Reduced(innerOut, tail)
    ensures Scan(t + "<" + z, 0, a, true)
         == Reduced(EmitPending(a, true) + EmitPending(t, true) + "<" + innerOut + "", f + "(" + args)
  {
    assert Scan(tail, 0, "", true) == Reduced("", f + "(" + args) by {
      EmptyScopeThenFunction(f, args);
    }
    TemplateStep(t, z, a, true, innerOut, tail, "", f + "(" + args);
  }

  lemma AnonymousPath(a: string, t: string)
    requires SegmentText(a) && SegmentText(t)
    requires a != "" && t != "" && ' ' !in a && ' ' !in t
    ensures EmitPending("$", false) + (EmitPending(a, true) + EmitPending(t, true)) == "$" + "." + a + "." + t
  {
    DollarSegment();
    DotSegment(a);
    DotSegment(t);
    Regroup("$", "." + a, "." + t);
    Regroup("$" + ("." + a), ".", t);
    Regroup("$", ".", a);
  }

  /** The anonymous-namespace marker, printed first, is printed as is. */
  lemma DollarSegment()
    ensures EmitPending("$", false) == "$"
  {
  }

  /** A pending segment after earlier output is printed after a dot. */
  lemma DotSegment(a: string)
    requires SegmentText(a) && a != "" && ' ' !in a
    ensures EmitPending(a, true) == "." + a
  {
  }

  /**
   * MSVC's spelling `anon::a::t<struct c>::f(args)`, where `anon` is one of
   * the anonymous-namespace spellings: the output is `$.a.t<c>`.
   */
  lemma AnonymousTemplate(k: nat, a: string, t: string, c: string, f: string, args: string)
    requires k < |AnonNamespaces|
    requires SegmentText(a) && SegmentText(t) && SegmentText(c) && SegmentText(f)
    requires a != "" && t != "" && c != "" && f != "" && ' ' !in a && ' ' !in t && ' ' !in c
    ensures Reduce(AnonNamespaces[k] + "::" + (a + "::" + (t + "<" + ("struct " + (c + ">" + ("::" + f + "(" + args))))))
         == Reduced("$" + "." + a + "." + t + "<" + (c + ">"), f + "(" + args)
  {
    var tail := "::" + f + "(" + args;
    var z := "struct " + (c + ">" + tail);
    var y := a + "::" + (t + "<" + z);
    var m := AnonNamespaces[k] + "::" + y;
    assert Reduce(m) == Scan(m, 0, "", false) by {
      assert m[0] == AnonNamespaces[k][0];
      NotStruct(m);
      ReduceNoStruct(m);
    }
    var o := EmitPending("$", false) + (EmitPending(a, true) + EmitPending(t, true));
    assert Scan(y, 0, "$", false) == Reduced(o + "<" + (c + ">") + "", f + "(" + args) by {
      StructArgument(c, tail);
      AnonymousScopeSteps(a, t, z, c + ">", tail, f, args);
      var e1, e23 := EmitPending("$", false), EmitPending(a, true) + EmitPending(t, true);
      Regroup(e1, e23 + "<" + (c + ">"), "");
      Regroup(e1, e23 + "<", c + ">");
      Regroup(e1, e23, "<");
    }
    assert o == "$" + "." + a + "." + t by {
      AnonymousPath(a, t);
    }
    assert Scan(m, 0, "", false) == Reduced(EmitPending("", false) + (o + "<" + (c + ">") + ""), f + "(" + args) by {
      AnonymousNamespace(k, y, "", false);
    }
  }

  /**
   * The MSVC signature `ret __cdecl anon::a::t<struct c>::f(args)`, the
   * shape of "void __cdecl `anonymous-namespace'::foo::tpl<struct T>::run(void)":
   * the scope path is `$.a.t<c>` ("$.foo.tpl<T>").
   */
  lemma MsvcSignature(p: string, ret: string, k: nat, a: string, t: string, c: string, f: string, args: string)
    requires k < |AnonNamespaces|
    requires StripQualifiers(p)
          == ret + " " + ("__cdecl " + (AnonNamespaces[k] + "::" + (a + "::" + (t + "<" + ("struct " + (c + ">" + ("::" + f + "(" + args)))))))
    requires PlainType(ret)
    requires SegmentText(a) && SegmentText(t) && SegmentText(c) && SegmentText(f)
    requires a != "" && t != "" && c != "" && f != "" && ' ' !in a && ' ' !in t && ' ' !in c
    ensures RenderFunPrefix(p) == "$" + "." + a + "." + t + "<" + (c + ">")
  {
    var m := AnonNamespaces[k] + "::" + (a + "::" + (t + "<" + ("struct " + (c + ">" + ("::" + f + "(" + args)))));
    CdeclStages(p, ret, m);
    AnonymousTemplate(k, a, t, c, f, args);
  }

  /**
   * The free function `int foo(int)` in the global namespace, written split
   * at the space after its return type and at its parenthesis.
   */
  lemma FreeFunction()
    ensures RenderFunPrefix("int" + " " + ("foo" + "(" + "int)")) == "GLOBAL"
  {
    var p := "int" + " " + ("foo" + "(" + "int)");
    assert StripQualifiers(p) == p by {
      HeadsDiffer(p);
    }
    GlobalFunction(p, "int", "foo", "int)");
  }

  /** The qualifier of a static member function is removed. */
  lemma StaticStrip()
    ensures StripQualifiers("static " + "int ns::A::f()") == "int ns::A::f()"
  {
    OneQualifier("static ", "int ns::A::f()");
  }
}
