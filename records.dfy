/**
 * Task records and the list operations the command handlers perform on a
 * user's task list: append, status update at a Python index, filtering by
 * status, and rendering for `view`.
 */
module Tasks {
  import opened Wrappers
  import opened Decimal

  /** The three status codes CANCELLED = -1, ADDED = 0, FINISHED = 1. */
  datatype Status = Cancelled | Added | Finished

  /** The integer stored in the task file for a status. */
  function Code(s: Status): (c: int)
    ensures -1 <= c <= 1
  {
    match s
    case Cancelled => -1
    case Added => 0
    case Finished => 1
  }

  /** The status a stored integer stands for, if any. */
  function StatusOfCode(c: int): (r: Option<Status>)
    ensures r.Some? <==> -1 <= c <= 1
  {
    if c == -1 then Some(Cancelled) else if c == 0 then Some(Added) else if c == 1 then Some(Finished) else None
  }

  /** The encoding is a bijection between the three statuses and -1, 0, 1. */
  lemma CodeRoundTrip(s: Status, c: int)
    ensures StatusOfCode(Code(s)) == Some(s)
    ensures StatusOfCode(c).Some? ==> Code(StatusOfCode(c).value) == c
  {
  }

  /** `STATUS_EMOJIS`: a glyph followed by a space, one per status. */
  function Glyph(s: Status): (g: string)
    ensures |g| == 2 && g[1] == ' ' && '\n' !in g
  {
    match s
    case Cancelled => "\U{26D4} "
    case Added => "\U{1F3AF} "
    case Finished => "\U{2705} "
  }

  /** Each status has its own glyph, so `view` shows which status a task has. */
  lemma GlyphInjective(a: Status, b: Status)
    ensures Glyph(a) == Glyph(b) ==> a == b
  {
  }

  /** One `[status, description]` record; only the status is ever changed. */
  datatype Record = Record(status: Status, description: string)

  type TaskList = seq<Record>

  /** The list after `user_tasks.append([ADDED, description])`. */
  function Appended(tasks: TaskList, description: string): (r: TaskList)
    ensures |r| == |tasks| + 1
    ensures r[..|tasks|] == tasks
    ensures r[|r| - 1] == Record(Added, description)
  {
    tasks + [Record(Added, description)]
  }

  /**
   * The position Python's `l[i]` refers to in a list of the given length:
   * a negative `i` counts from the end, and `None` stands for `IndexError`.
   */
  function PyIndex(length: nat, i: int): (r: Option<nat>)
    ensures r.Some? <==> -(length as int) <= i < length
    ensures r.Some? ==> r.value < length && (r.value - i) % length == 0
  {
    if 0 <= i < length then Some(i)
    else if -(length as int) <= i < 0 then Some(length + i)
    else None
  }

  /**
   * The index text `k` of `task finished k` addresses `k - 1`: the k-th task
   * for 1 <= k <= length, but the last task for k = 0, a task counted from the
   * end for 1 - length <= k < 0, and nothing (an `IndexError`) beyond those.
   */
  lemma OneBasedIndex(length: nat, k: int)
    ensures 1 <= k <= length ==> PyIndex(length, k - 1) == Some(k - 1)
    ensures length >= 1 && k == 0 ==> PyIndex(length, k - 1) == Some(length - 1)
    ensures 1 - length <= k < 1 ==> PyIndex(length, k - 1) == Some(length + k - 1)
    ensures PyIndex(length, k - 1).None? <==> k > length || k < 1 - length
  {
  }

  /**
   * The number `view` prints before record `i`, given back as the index text
   * of `task finished` / `task cancel`, addresses that same record.
   */
  lemma ViewNumberAddressesRecord(length: nat, i: nat)
    requires i < length && |NatToString(length)| <= MaxStrDigits
    ensures ParseInt(NatToString(i + 1)) == Some(i + 1)
    ensures PyIndex(length, ParseInt(NatToString(i + 1)).value - 1) == Some(i)
  {
    NatToStringLengthMonotone(i + 1, length);
    ParseIntOfIntToString(i + 1);
  }

  /** The list after `user_tasks[p][0] = status`. */
  function WithStatus(tasks: TaskList, p: nat, status: Status): (r: TaskList)
    requires p < |tasks|
    ensures |r| == |tasks|
    ensures r[p] == Record(status, tasks[p].description)
    ensures forall j | 0 <= j < |tasks| && j != p :: r[j] == tasks[j]
  {
    tasks[p := tasks[p].(status := status)]
  }

  /** Any status may be overwritten by any other, also a finished or cancelled one. */
  lemma AnyTransition(tasks: TaskList, p: nat, status: Status)
    requires p < |tasks|
    ensures WithStatus(tasks, p, status)[p].status == status
    ensures WithStatus(WithStatus(tasks, p, status), p, tasks[p].status) == tasks
  {
  }

  /**
   * `t[0] != which`: whether a record survives a clear. `target` is the
   * integer `which` was replaced by, or `None` where `which` is still a text,
   * which no stored code equals.
   */
  predicate Kept(r: Record, target: Option<int>) {
    target != Some(Code(r.status))
  }

  /** `[t for t in user_tasks if t[0] != which]`. */
  function Without(tasks: TaskList, target: Option<int>): (kept: TaskList)
    ensures |kept| <= |tasks|
  {
    if tasks == [] then []
    else if Kept(tasks[0], target) then [tasks[0]] + Without(tasks[1..], target)
    else Without(tasks[1..], target)
  }

  /** The filtered list holds exactly the records of the list that are kept. */
  lemma {:induction false} WithoutMembers(tasks: TaskList, target: Option<int>)
    ensures forall r :: r in Without(tasks, target) <==> r in tasks && Kept(r, target)
  {
    if tasks != [] {
      WithoutMembers(tasks[1..], target);
      assert forall r :: r in tasks <==> r == tasks[0] || r in tasks[1..];
    }
  }

  /** Filtering distributes over concatenation, so the kept records stay in list order. */
  lemma {:induction false} WithoutConcat(a: TaskList, b: TaskList, target: Option<int>)
    ensures Without(a + b, target) == Without(a, target) + Without(b, target)
  {
    if a != [] {
      assert (a + b)[0] == a[0];
      assert (a + b)[1..] == a[1..] + b;
      WithoutConcat(a[1..], b, target);
    } else {
      assert a + b == b;
    }
  }

  /** A record that is kept stays as it is, and one that is not kept disappears. */
  lemma WithoutSingle(r: Record, target: Option<int>)
    ensures Without([r], target) == if Kept(r, target) then [r] else []
  {
    assert [r][1..] == [];
  }

  /** Clearing the same status twice has the effect of clearing it once. */
  lemma {:induction false} WithoutIdempotent(tasks: TaskList, target: Option<int>)
    ensures Without(Without(tasks, target), target) == Without(tasks, target)
  {
    if tasks != [] {
      WithoutIdempotent(tasks[1..], target);
      if Kept(tasks[0], target) {
        assert ([tasks[0]] + Without(tasks[1..], target))[1..] == Without(tasks[1..], target);
      }
    }
  }

  /** Clearing finished and then cancelled tasks is the same as the other way round. */
  lemma {:induction false} WithoutCommutes(tasks: TaskList, s: Option<int>, t: Option<int>)
    ensures Without(Without(tasks, s), t) == Without(Without(tasks, t), s)
  {
    if tasks != [] {
      WithoutCommutes(tasks[1..], s, t);
      var x := tasks[0];
      var rest := tasks[1..];
      WithoutConcat([x], Without(rest, s), t);
      WithoutConcat([x], Without(rest, t), s);
      WithoutSingle(x, s);
      WithoutSingle(x, t);
    }
  }

  /** A clear whose target is a text, or an integer that is no status code, keeps the whole list. */
  lemma {:induction false} WithoutNothing(tasks: TaskList, target: Option<int>)
    requires target.Some? ==> StatusOfCode(target.value).None?
    ensures Without(tasks, target) == tasks
  {
    if tasks != [] {
      CodeRoundTrip(tasks[0].status, 0);
      WithoutNothing(tasks[1..], target);
    }
  }

  /** The filtered list is empty (and the file is deleted) exactly when every record has the target status. */
  lemma WithoutEmpty(tasks: TaskList, s: Status)
    ensures Without(tasks, Some(Code(s))) == [] <==> forall r | r in tasks :: r.status == s
  {
    var kept := Without(tasks, Some(Code(s)));
    WithoutMembers(tasks, Some(Code(s)));
    if kept != [] {
      assert kept[0] in kept;
    }
  }

  /** One line of `view`: `str(position) + ". " + glyph + description`, without its '\n'. */
  function Line(position: nat, r: Record): string {
    NatToString(position) + ". " + Glyph(r.status) + r.description
  }

  /** A line starts with the position's digits and ". ", then the glyph, and ends with the description. */
  lemma LineShape(position: nat, r: Record)
    ensures var n, l := NatToString(position), Line(position, r);
      && |l| == |n| + 4 + |r.description|
      && l[..|n| + 2] == n + ". "
      && l[|n| .. |n| + 4] == ". " + Glyph(r.status)
      && l[|n| + 4..] == r.description
  {
    var n, l := NatToString(position), Line(position, r);
    assert l == n + ". " + Glyph(r.status) + r.description;
    assert l[|n| + 4..] == r.description;
    assert l[|n| .. |n| + 4] == ". " + Glyph(r.status);
  }

  /** The message `view` builds, numbering the records from `first` on. */
  function RenderFrom(tasks: TaskList, first: nat): string {
    if tasks == [] then "" else Line(first, tasks[0]) + "\n" + RenderFrom(tasks[1..], first + 1)
  }

  /** The message `view` sends: every record on its own line, numbered from 1. */
  function Render(tasks: TaskList): (message: string)
    ensures message == "" <==> tasks == []
    ensures tasks != [] ==> message[|message| - 1] == '\n'
  {
    RenderFromEnds(tasks, 1);
    RenderFrom(tasks, 1)
  }

  /** The message is empty exactly for an empty list, and otherwise ends in a line break. */
  lemma {:induction false} RenderFromEnds(tasks: TaskList, first: nat)
    ensures RenderFrom(tasks, first) == "" <==> tasks == []
    ensures tasks != [] ==> RenderFrom(tasks, first)[|RenderFrom(tasks, first)| - 1] == '\n'
  {
    if tasks != [] {
      RenderFromEnds(tasks[1..], first + 1);
    }
  }

  /** Appending a record adds its line at the end, which is how the `for` loop of `view` builds the message. */
  lemma {:induction false} RenderFromSnoc(tasks: TaskList, r: Record, first: nat)
    ensures RenderFrom(tasks + [r], first) == RenderFrom(tasks, first) + Line(first + |tasks|, r) + "\n"
  {
    if tasks == [] {
      assert [] + [r] == [r];
      assert [r][1..] == [];
    } else {
      var rest := tasks[1..];
      assert (tasks + [r])[1..] == rest + [r];
      assert first + |tasks| == (first + 1) + |rest|;
      RenderFromSnoc(rest, r, first + 1);
    }
  }

  /** The message after the loop turn for record `i` of `view`. */
  lemma RenderPrefix(tasks: TaskList, i: nat)
    requires i < |tasks|
    ensures RenderFrom(tasks[..i + 1], 1) == RenderFrom(tasks[..i], 1) + Line(i + 1, tasks[i]) + "\n"
  {
    assert tasks[..i + 1] == tasks[..i] + [tasks[i]];
    RenderFromSnoc(tasks[..i], tasks[i], 1);
  }

  /** Index of the first '\n' in a text, or its length when there is none. */
  function NewlineIndex(s: string): (k: nat)
    ensures k <= |s|
    ensures forall i | 0 <= i < k :: s[i] != '\n'
    ensures k < |s| ==> s[k] == '\n'
  {
    if s == [] || s[0] == '\n' then 0 else 1 + NewlineIndex(s[1..])
  }

  /** The lines of a text, each ended by '\n'; a last piece without one is a line too. */
  function SplitLines(s: string): seq<string>
    decreases |s|
  {
    if s == [] then []
    else
      var k := NewlineIndex(s);
      if k == |s| then [s] else [s[..k]] + SplitLines(s[k + 1..])
  }

  lemma SplitLinesCons(a: string, b: string)
    requires '\n' !in a
    ensures SplitLines(a + "\n" + b) == [a] + SplitLines(b)
  {
    var s := a + "\n" + b;
    var k := NewlineIndex(s);
    assert s[|a|] == '\n';
    assert forall i | 0 <= i < |a| :: s[i] == a[i];
    assert k == |a|;
    assert s[..k] == a;
    assert s[k + 1..] == b;
  }

  lemma LineHasNoNewline(position: nat, r: Record)
    requires '\n' !in r.description
    ensures '\n' !in Line(position, r)
  {
    var digits := NatToString(position);
    assert '\n' !in digits by {
      assert forall i | 0 <= i < |digits| :: IsDigit(digits[i]);
    }
  }

  /**
   * When no description contains a line break, the message of `view` has
   * exactly one line per record, and line i shows position `first + i`,
   * the glyph of the record's status and its description.
   */
  lemma {:induction false} RenderedLines(tasks: TaskList, first: nat)
    requires forall i | 0 <= i < |tasks| :: '\n' !in tasks[i].description
    ensures |SplitLines(RenderFrom(tasks, first))| == |tasks|
    ensures forall i | 0 <= i < |tasks| :: SplitLines(RenderFrom(tasks, first))[i] == Line(first + i, tasks[i])
  {
    if tasks != [] {
      LineHasNoNewline(first, tasks[0]);
      SplitLinesCons(Line(first, tasks[0]), RenderFrom(tasks[1..], first + 1));
      RenderedLines(tasks[1..], first + 1);
      var lines := SplitLines(RenderFrom(tasks, first));
      forall i | 0 <= i < |tasks|
        ensures lines[i] == Line(first + i, tasks[i])
      {
        if i > 0 {
          assert tasks[1..][i - 1] == tasks[i];
        }
      }
    }
  }
}
