/**
  Names of segment ports, "<Segment>.<Entity>.<Queue>" or "<Entity>.<Queue>": how they are parsed and
  printed, and exactly when either undoes the other.
 */
module SegmentPorts {
  import opened Wrappers

  datatype SegmentPort = SegmentPort(segment: string, entity: string, queue: string)

  function Dots(s: string): nat {
    if s == "" then 0 else (if s[0] == '.' then 1 else 0) + Dots(s[1..])
  }

  /** The position of the first dot. */
  function Find(s: string): (i: Option<nat>)
    ensures i.Some? ==> i.value < |s| && s[i.value] == '.'
  {
    if s == "" then None
    else if s[0] == '.' then Some(0)
    else
      match Find(s[1..])
      case Some(i) => Some(i + 1)
      case None => None
  }

  /** The position of the last dot. */
  function FindLast(s: string): (i: Option<nat>)
    ensures i.Some? ==> i.value < |s| && s[i.value] == '.'
  {
    if s == "" then None else if s[|s| - 1] == '.' then Some(|s| - 1) else FindLast(s[..|s| - 1])
  }

  function SplitString(name: string): (string, string) {
    match Find(name)
    case Some(i) => (name[..i], name[i + 1..])
    case None => ("", "")
  }

  /** Where a dot is missing, the position one past it is 0 and a part cut at it runs to the end. */
  function SplitString2(name: string): SegmentPort {
    var first := Find(name);
    var from := if first.Some? then first.value + 1 else 0;
    var second := Find(name[from..]);
    var third := FindLast(name);
    SegmentPort(if first.Some? then name[..first.value] else name,
                if second.Some? then name[from..][..second.value] else name[from..],
                if third.Some? then name[third.value + 1..] else name)
  }

  function Parse(name: string): SegmentPort {
    if Dots(name) == 2 then SplitString2(name)
    else
      var (entity, queue) := SplitString(name);
      SegmentPort("", entity, queue)
  }

  function Print(p: SegmentPort): string {
    if p.segment != "" then p.segment + "." + p.entity + "." + p.queue else p.entity + "." + p.queue
  }

  // ---------------------------------------------------------------------------------------------
  // Dots
  // ---------------------------------------------------------------------------------------------

  lemma {:induction false} DotsConcat(a: string, b: string)
    ensures Dots(a + b) == Dots(a) + Dots(b)
  {
    if a == "" {
      assert a + b == b;
    } else {
      DotsConcat(a[1..], b);
      assert (a + b)[1..] == a[1..] + b;
    }
  }

  /** The text around a dot. */
  lemma DotsAround(a: string, b: string)
    ensures Dots(a + "." + b) == Dots(a) + 1 + Dots(b)
  {
    DotsConcat(a, ".");
    DotsConcat(a + ".", b);
    assert Dots(".") == 1;
  }

  lemma {:induction false} FindSplits(s: string)
    ensures Find(s) == None <==> Dots(s) == 0
    ensures Find(s).Some? ==>
              var i := Find(s).value;
              s == s[..i] + "." + s[i + 1..] && Dots(s[..i]) == 0 && Dots(s) == 1 + Dots(s[i + 1..])
  {
    if s != "" && s[0] != '.' {
      FindSplits(s[1..]);
      if Find(s).Some? {
        var i := Find(s).value;
        assert s[..i][1..] == s[1..][..i - 1];
        assert s[1..][i..] == s[i + 1..];
      }
    }
  }

  lemma {:induction false} FindAt(a: string, b: string)
    requires Dots(a) == 0
    ensures Find(a + "." + b) == Some(|a|)
  {
    if a != "" {
      FindAt(a[1..], b);
      assert (a + "." + b)[1..] == a[1..] + "." + b;
    }
  }

  lemma {:induction false} FindLastAt(a: string, b: string)
    requires Dots(b) == 0
    ensures FindLast(a + "." + b) == Some(|a|)
  {
    var s := a + "." + b;
    if b != "" {
      var init, last := b[..|b| - 1], b[|b| - 1];
      assert b == init + [last];
      DotsConcat(init, [last]);
      FindLastAt(a, init);
      assert s[..|s| - 1] == a + "." + init;
    }
  }

  /** Cutting at a dot. */
  lemma Cut(a: string, b: string)
    ensures (a + "." + b)[..|a|] == a && (a + "." + b)[|a| + 1..] == b
  {
  }

  lemma JoinAssociates(a: string, b: string, c: string)
    ensures a + "." + b + "." + c == a + "." + (b + "." + c)
  {
  }

  /** A name with two dots, cut at them. */
  lemma SplitsInThree(a: string, b: string, c: string)
    requires Dots(a) == 0 && Dots(b) == 0 && Dots(c) == 0
    ensures Dots(a + "." + b + "." + c) == 2
    ensures Parse(a + "." + b + "." + c) == SegmentPort(a, b, c)
  {
    DotsAround(a, b);
    DotsAround(a + "." + b, c);
    ThreeCuts(a, b, c, a + "." + b, b + "." + c);
  }

  lemma ThreeCuts(a: string, b: string, c: string, ab: string, bc: string)
    requires Dots(a) == 0 && Dots(b) == 0 && Dots(c) == 0 && ab == a + "." + b && bc == b + "." + c
    ensures SplitString2(ab + "." + c) == SegmentPort(a, b, c)
  {
    JoinAssociates(a, b, c);
    FindAt(a, bc);
    Cut(a, bc);
    FindAt(b, c);
    Cut(b, c);
    FindLastAt(ab, c);
    Cut(ab, c);
  }

  lemma {:induction false} SplitsInTwo(a: string, b: string)
    requires Dots(a) == 0 && Dots(b) != 1
    ensures Parse(a + "." + b) == SegmentPort("", a, b)
  {
    DotsAround(a, b);
    FindAt(a, b);
  }

  lemma {:induction false} NoDots(s: string)
    ensures Dots(s) == 0 <==> '.' !in s
  {
    if s != "" {
      NoDots(s[1..]);
      assert s == [s[0]] + s[1..];
    }
  }

  /**
    How names are parsed, by their dots: without one there are no parts, with one there are entity and queue,
    with two there are all three parts, and with more everything after the first dot is the queue.
   */
  lemma {:induction false} ParsedByDots(a: string, b: string, c: string, d: string)
    requires '.' !in a && '.' !in b && '.' !in c
    ensures Parse(a) == SegmentPort("", "", "")
    ensures Parse(a + "." + b) == SegmentPort("", a, b)
    ensures Parse(a + "." + b + "." + c) == SegmentPort(a, b, c)
    ensures Parse(a + "." + (b + "." + c + "." + d)) == SegmentPort("", a, b + "." + c + "." + d)
  {
    NoDots(a);
    NoDots(b);
    NoDots(c);
    FindSplits(a);
    SplitsInTwo(a, b);
    SplitsInThree(a, b, c);
    DotsAround(b, c);
    DotsAround(b + "." + c, d);
    SplitsInTwo(a, b + "." + c + "." + d);
  }

  // ---------------------------------------------------------------------------------------------
  // Round trips
  // ---------------------------------------------------------------------------------------------

  /** The ports whose printed form parses back to them, as one can see from their parts. */
  predicate Printable(p: SegmentPort) {
    Dots(p.entity) == 0 && if p.segment == "" then Dots(p.queue) != 1 else Dots(p.segment) == 0 && Dots(p.queue) == 0
  }

  /** Parsing undoes printing exactly for the printable ports; in particular for all whose parts contain no dot. */
  lemma ParsePrint(p: SegmentPort)
    ensures Parse(Print(p)) == p <==> Printable(p)
    ensures Dots(p.segment) == Dots(p.entity) == Dots(p.queue) == 0 ==> Parse(Print(p)) == p
  {
    if Printable(p) {
      if p.segment == "" { SplitsInTwo(p.entity, p.queue); } else { SplitsInThree(p.segment, p.entity, p.queue); }
    } else {
      ParsedParts(Print(p));
      DotsAround(p.entity, p.queue);
      DotsAround(p.segment, p.entity);
      DotsAround(p.segment + "." + p.entity, p.queue);
    }
  }

  /** What parsing leaves in the parts: no dots in any part of two, and none before the queue otherwise. */
  lemma ParsedParts(name: string)
    ensures var p := Parse(name);
            && Dots(p.entity) == 0
            && (Dots(name) == 2 ==> Dots(p.segment) == 0 && Dots(p.queue) == 0)
            && (Dots(name) != 2 ==> p.segment == "" && Dots(p.queue) == if Dots(name) == 0 then 0 else Dots(name) - 1)
  {
    FindSplits(name);
    if Dots(name) == 2 {
      var a, b, c := ThreeParts(name);
      SplitsInThree(a, b, c);
    }
  }

  lemma {:induction false} ThreeParts(name: string) returns (a: string, b: string, c: string)
    requires Dots(name) == 2
    ensures name == a + "." + b + "." + c
    ensures Dots(a) == 0 && Dots(b) == 0 && Dots(c) == 0
  {
    FindSplits(name);
    var i := Find(name).value;
    var rest := name[i + 1..];
    FindSplits(rest);
    var j := Find(rest).value;
    a, b, c := name[..i], rest[..j], rest[j + 1..];
    JoinAssociates(a, b, c);
  }

  /** Printing undoes parsing exactly for names with a dot, other than two-dot names that begin with one. */
  lemma {:induction false} PrintParse(name: string)
    ensures Print(Parse(name)) == name <==> Dots(name) >= 1 && !(Dots(name) == 2 && name[0] == '.')
  {
    FindSplits(name);
    if Dots(name) == 2 {
      var a, b, c := ThreeParts(name);
      PrintParseThree(a, b, c);
    } else if Dots(name) == 0 {
      assert Dots(".") == 1;
      assert Print(Parse(name)) == ".";
    }
  }

  lemma {:induction false} PrintParseThree(a: string, b: string, c: string)
    requires Dots(a) == 0 && Dots(b) == 0 && Dots(c) == 0
    ensures var name := a + "." + b + "." + c; Print(Parse(name)) == name <==> name[0] != '.'
  {
    var name := a + "." + b + "." + c;
    SplitsInThree(a, b, c);
    if a == "" {
      assert |Print(Parse(name))| < |name|;
    } else {
      assert name[0] == a[0];
    }
  }
}
