/**
 * `start`: whether the logger starts at all, and the log file name with
 * its `[PID]`, `[TIMESTAMP]` and `[NODE]` placeholders filled in. Each
 * placeholder is searched for once and only its first occurrence is
 * replaced. The process id, the start time and the node id are parameters.
 */
module FileName {
  import opened Base
  import opened Levels

  const PidPlaceholder := "[PID]"
  const TimestampPlaceholder := "[TIMESTAMP]"
  const NodePlaceholder := "[NODE]"

  /** `p` occurs in `s` at position `i`. */
  predicate Occurs(s: string, p: string, i: nat) {
    i + |p| <= |s| && s[i..i + |p|] == p
  }

  /**
   * `std::search`: the first position from `k` on where `p` occurs, or `|s|`
   * when there is none before the end.
   */
  function FirstFrom(s: string, p: string, k: nat): (i: nat)
    requires k <= |s|
    ensures k <= i <= |s|
    ensures i < |s| ==> Occurs(s, p, i)
    ensures forall j :: k <= j < i ==> !Occurs(s, p, j)
    decreases |s| - k
  {
    if k == |s| then k
    else if Occurs(s, p, k) then k
    else FirstFrom(s, p, k + 1)
  }

  function FirstOccurrence(s: string, p: string): (i: nat)
    ensures i <= |s|
    ensures i < |s| ==> Occurs(s, p, i)
    ensures forall j :: 0 <= j < i ==> !Occurs(s, p, j)
  {
    FirstFrom(s, p, 0)
  }

  /** The search loop: advances past every position where `p` does not start. */
  method Search(s: string, p: string) returns (i: nat)
    ensures i <= |s|
    ensures i < |s| ==> Occurs(s, p, i)
    ensures forall j :: 0 <= j < i ==> !Occurs(s, p, j)
    ensures i == FirstOccurrence(s, p)
  {
    i := 0;
    while i < |s| && !(i + |p| <= |s| && s[i..i + |p|] == p)
      invariant i <= |s|
      invariant forall j :: 0 <= j < i ==> !Occurs(s, p, j)
    {
      i := i + 1;
    }
    FirstOccurrenceIs(s, p, i);
  }

  /** The first occurrence is determined by its two defining facts. */
  lemma FirstOccurrenceIs(s: string, p: string, i: nat)
    requires i <= |s|
    requires i < |s| ==> Occurs(s, p, i)
    requires forall j :: 0 <= j < i ==> !Occurs(s, p, j)
    ensures FirstOccurrence(s, p) == i
  {
  }

  /**
   * `replace` at the first occurrence of `p`, if there is one: the name is
   * split around the earliest occurrence and `v` takes its place.
   */
  function ReplaceFirst(s: string, p: string, v: string): (r: string)
    ensures (forall j :: 0 <= j < |s| ==> !Occurs(s, p, j)) ==> r == s
    ensures (exists j :: 0 <= j < |s| && Occurs(s, p, j)) ==>
              exists a, b :: s == a + p + b && r == a + v + b
                             && forall j :: 0 <= j < |a| ==> !Occurs(s, p, j)
  {
    var i := FirstOccurrence(s, p);
    if i < |s| then
      assert s == s[..i] + p + s[i + |p|..];
      s[..i] + v + s[i + |p|..]
    else s
  }

  /**
   * The file name after the three substitutions, in the order `start`
   * performs them. A name without `[` is used as configured.
   */
  function ResolveFileName(name: string, pid: nat, timestamp: string, node: string): (r: string)
    ensures '[' !in name ==> r == name
  {
    var a := ReplaceFirst(name, PidPlaceholder, Decimal(pid));
    var b := ReplaceFirst(a, TimestampPlaceholder, timestamp);
    ReplacementsAbsent(name, pid, timestamp, node);
    ReplaceFirst(b, NodePlaceholder, node)
  }

  /** What `start` decides: no output at all, or output with this file name ("" for none). */
  datatype Startup = Silent | Started(fileName: string)

  function Start(verbosity: nat, consoleVerbosity: nat, configured: string,
                 pid: nat, timestamp: string, node: string): (r: Startup)
    ensures r == Silent <==> verbosity == Quiet || (configured == "" && consoleVerbosity == Quiet)
    ensures r.Started? && configured == "" ==> r.fileName == ""
    ensures r.Started? && configured != "" ==> r.fileName == ResolveFileName(configured, pid, timestamp, node)
  {
    if verbosity == Quiet then Silent
    else if configured == "" then (if consoleVerbosity == Quiet then Silent else Started(""))
    else Started(ResolveFileName(configured, pid, timestamp, node))
  }

  /** The first occurrence of a pattern whose first character does not occur before it. */
  lemma FirstOccurrenceAfter(a: string, p: string, b: string)
    requires p != [] && p[0] !in a
    ensures FirstOccurrence(a + p + b, p) == |a|
  {
    var s := a + p + b;
    assert s[|a|..|a| + |p|] == p;
    forall j | 0 <= j < |a|
      ensures !Occurs(s, p, j)
    {
      assert s[j] == a[j];
      if j + |p| <= |s| {
        assert s[j..j + |p|][0] == s[j];
      }
    }
    FirstOccurrenceIs(s, p, |a|);
  }

  /** Replacing a pattern that is preceded by text without its first character. */
  lemma ReplaceAfter(a: string, p: string, b: string, v: string)
    requires p != [] && p[0] !in a
    ensures ReplaceFirst(a + p + b, p, v) == a + v + b
  {
    var s := a + p + b;
    FirstOccurrenceAfter(a, p, b);
    assert s[..|a|] == a;
    assert s[|a| + |p|..] == b;
  }

  /** A name in which `p` does not occur is left as it is. */
  lemma ReplaceAbsent(s: string, p: string, v: string)
    requires forall j :: 0 <= j < |s| ==> !Occurs(s, p, j)
    ensures ReplaceFirst(s, p, v) == s
  {
    FirstOccurrenceIs(s, p, |s|);
  }

  /** Three replacements, each of a pattern starting with `[`, in the order they occur. */
  lemma ThreeReplacements(a: string, b: string, c: string, d: string,
                          p1: string, p2: string, p3: string,
                          v1: string, v2: string, v3: string)
    requires p1 != [] && p2 != [] && p3 != []
    requires p1[0] == '[' && p2[0] == '[' && p3[0] == '['
    requires '[' !in a && '[' !in b && '[' !in c && '[' !in v1 && '[' !in v2
    ensures ReplaceFirst(ReplaceFirst(ReplaceFirst(a + p1 + b + p2 + c + p3 + d, p1, v1), p2, v2), p3, v3)
         == a + v1 + b + v2 + c + v3 + d
  {
    var rest2 := c + p3 + d;
    var rest1 := b + p2 + rest2;
    assert a + p1 + b + p2 + c + p3 + d == a + p1 + rest1 by {
      RegroupThree(a + p1, b, p2, rest2);
      RegroupThree(a + p1 + b + p2, c, p3, d);
    }
    ReplaceAfter(a, p1, rest1, v1);
    var n1 := a + v1 + b;
    assert a + v1 + rest1 == n1 + p2 + rest2 by {
      RegroupThree(a + v1, b, p2, rest2);
    }
    ReplaceAfter(n1, p2, rest2, v2);
    assert n1 + v2 + rest2 == n1 + v2 + c + p3 + d by {
      RegroupThree(n1 + v2, c, p3, d);
    }
    ReplaceAfter(n1 + v2 + c, p3, d, v3);
  }

  /**
   * A name with all three placeholders, in the order of the default file
   * name, around text that contains no `[`: each placeholder is replaced by
   * its value.
   */
  lemma AllPlaceholders(a: string, b: string, c: string, d: string,
                        pid: nat, timestamp: string, node: string)
    requires '[' !in a && '[' !in b && '[' !in c && '[' !in timestamp
    ensures ResolveFileName(a + PidPlaceholder + b + TimestampPlaceholder + c + NodePlaceholder + d,
                            pid, timestamp, node)
         == a + Decimal(pid) + b + timestamp + c + node + d
  {
    NoBracketInDecimal(pid);
    ThreeReplacements(a, b, c, d, PidPlaceholder, TimestampPlaceholder, NodePlaceholder,
                      Decimal(pid), timestamp, node);
  }

  lemma NoBracketInDecimal(n: nat)
    ensures '[' !in Decimal(n)
  {
    var r := Decimal(n);
    forall j | 0 <= j < |r|
      ensures r[j] != '['
    {
      assert IsDigit(r[j]);
    }
  }

  /** Only the first occurrence is replaced: a second `[PID]` stays in the name. */
  lemma SecondPidKept(a: string, b: string, c: string, pid: nat)
    requires '[' !in a
    ensures ReplaceFirst(a + PidPlaceholder + b + PidPlaceholder + c, PidPlaceholder, Decimal(pid))
         == a + Decimal(pid) + b + PidPlaceholder + c
  {
    var rest := b + PidPlaceholder + c;
    assert a + PidPlaceholder + b + PidPlaceholder + c == a + PidPlaceholder + rest;
    ReplaceAfter(a, PidPlaceholder, rest, Decimal(pid));
  }

  /** No placeholder starts inside a name without `[`, so none of the three replacements applies. */
  lemma ReplacementsAbsent(name: string, pid: nat, timestamp: string, node: string)
    ensures '[' !in name ==>
              ReplaceFirst(ReplaceFirst(ReplaceFirst(name, PidPlaceholder, Decimal(pid)),
                                        TimestampPlaceholder, timestamp),
                           NodePlaceholder, node) == name
  {
    if '[' !in name {
      NoBracketAbsent(name, PidPlaceholder);
      ReplaceAbsent(name, PidPlaceholder, Decimal(pid));
      NoBracketAbsent(name, TimestampPlaceholder);
      ReplaceAbsent(name, TimestampPlaceholder, timestamp);
      NoBracketAbsent(name, NodePlaceholder);
      ReplaceAbsent(name, NodePlaceholder, node);
    }
  }

  lemma NoBracketAbsent(s: string, p: string)
    requires '[' !in s && p != [] && p[0] == '['
    ensures forall j :: 0 <= j < |s| ==> !Occurs(s, p, j)
  {
    forall j | 0 <= j < |s|
      ensures !Occurs(s, p, j)
    {
      if j + |p| <= |s| {
        assert s[j..j + |p|][0] == s[j];
      }
    }
  }
}
