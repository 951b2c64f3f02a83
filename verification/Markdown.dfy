/** Memories and their Markdown texts: what serialising and parsing keep, and what they normalise. */
module Markdown {
  import opened Base

  type MemoryId = int
  type Name = int
  type Time = int

  datatype Kind = User | Feedback | Project | Reference | Session

  datatype Status = Active | Archived

  /** An entity declared by a memory, with its aliases. */
  datatype Entity = Entity(name: Name, aliases: seq<Name>)

  datatype Triple = Triple(subject: Name, relation: int, target: Name)

  datatype ArchiveReason = Plain(code: int) | MergedInto(target: MemoryId, code: int)

  /** `sources` stands for the provenance lists, which are carried along unread. */
  datatype Memory = Memory(
    id: MemoryId, name: Name, description: int, kind: Kind, body: string,
    tags: seq<Name>, links: seq<Name>, supersedes: seq<Name>, entities: seq<Entity>, triples: seq<Triple>, sources: int,
    lastReviewed: Option<Time>, nextReview: Option<Time>,
    status: Option<Status>, archivedAt: Option<Time>, archiveReason: Option<ArchiveReason>, archivedBy: Option<int>,
    createdAt: Time, updatedAt: Time)

  /** A text: the front matter and, in the body, the characters as written. */
  datatype Text = Text(written: Memory)

  /** sha256, taken to be injective. */
  datatype Hash = Sha256(text: Text)

  function StripLeading(s: string): string {
    if s != [] && s[0] == '\n' then StripLeading(s[1..]) else s
  }

  function StripTrailing(s: string): (t: string)
    ensures t <= s && (t != [] ==> t[|t| - 1] != '\n')
  {
    if s != [] && s[|s| - 1] == '\n' then StripTrailing(s[..|s| - 1]) else s
  }

  /** `content.replace(/^\n+/, '').replace(/\n+$/, '')`. */
  function Strip(s: string): string { StripTrailing(StripLeading(s)) }

  /** A text is written with a body that ends in a newline. */
  function Serialize(m: Memory): Text {
    Text(if m.body != [] && m.body[|m.body| - 1] == '\n' then m else m.(body := m.body + ['\n']))
  }

  function Parse(t: Text): Memory {
    t.written.(body := Strip(t.written.body),
               status := if t.written.status.None? then Some(Active) else t.written.status)
  }

  predicate IsActive(m: Memory) { m.status.None? || m.status == Some(Active) }

  /** What a memory reads back as: line breaks around the body are gone and the status is explicit. */
  function Normalised(m: Memory): Memory {
    m.(body := Strip(m.body), status := if m.status.None? then Some(Active) else m.status)
  }

  predicate Normal(m: Memory) { Normalised(m) == m }

  lemma {:induction false} StripLeadingStarts(s: string)
    ensures StripLeading(s) != [] ==> StripLeading(s)[0] != '\n'
  {
    if s != [] && s[0] == '\n' { StripLeadingStarts(s[1..]); }
  }

  lemma {:induction false} StripLeadingKeepsEnd(s: string)
    ensures StripTrailing(StripLeading(s + ['\n'])) == StripTrailing(StripLeading(s))
  {
    if s == [] {
      assert StripLeading(['\n']) == StripLeading(['\n'][1..]) == [];
    } else if s[0] == '\n' {
      assert (s + ['\n'])[1..] == s[1..] + ['\n'];
      StripLeadingKeepsEnd(s[1..]);
    } else {
      assert (s + ['\n'])[..|s + ['\n']| - 1] == s;
    }
  }

  /** Writing and reading a memory normalises it, no more. */
  lemma ParseSerialize(m: Memory)
    ensures Parse(Serialize(m)) == Normalised(m)
  {
    StripLeadingKeepsEnd(m.body);
  }

  /** Whatever was read is in normal form. */
  lemma ParsedIsNormal(t: Text)
    ensures Normal(Parse(t))
  {
    StripIsStable(t.written.body);
  }

  lemma StripIsStable(s: string)
    ensures Strip(Strip(s)) == Strip(s)
  {
    StripLeadingStarts(s);
  }

  /** So reading a memory back gives the memory exactly when it was in normal form. */
  lemma RoundTripsIffNormal(m: Memory)
    ensures Parse(Serialize(m)) == m <==> Normal(m)
  {
    ParseSerialize(m);
  }

  lemma {:induction false} StripLeadingShortens(s: string)
    ensures |StripLeading(s)| <= |s| && (|StripLeading(s)| == |s| ==> StripLeading(s) == s)
  {
    if s != [] && s[0] == '\n' { StripLeadingShortens(s[1..]); }
  }

  ghost predicate OnlyBreaks(s: string) { forall i :: 0 <= i < |s| ==> s[i] == '\n' }

  lemma {:induction false} StripLeadingIs(s: string) returns (i: nat)
    ensures i <= |s| && StripLeading(s) == s[i..] && OnlyBreaks(s[..i])
  {
    i := 0;
    if s != [] && s[0] == '\n' {
      var j := StripLeadingIs(s[1..]);
      i := j + 1;
      assert s[..i] == [s[0]] + s[1..][..j];
    }
  }

  lemma {:induction false} StripTrailingIs(s: string)
    ensures StripTrailing(s) == s[..|StripTrailing(s)|] && OnlyBreaks(s[|StripTrailing(s)|..])
  {
    if s != [] && s[|s| - 1] == '\n' {
      var init := s[..|s| - 1];
      StripTrailingIs(init);
      var n := |StripTrailing(init)|;
      assert s[n..] == init[n..] + [s[|s| - 1]];
    }
  }

  /** What stripping leaves is the body between the line breaks at its two ends, and it has none there itself. */
  lemma StripIs(s: string) returns (i: nat, j: nat)
    ensures i <= j <= |s| && Strip(s) == s[i..j] && OnlyBreaks(s[..i]) && OnlyBreaks(s[j..])
    ensures Strip(s) != [] ==> Strip(s)[0] != '\n' && Strip(s)[|Strip(s)| - 1] != '\n'
  {
    i := StripLeadingIs(s);
    StripLeadingStarts(s);
    var rest := s[i..];
    StripTrailingIs(rest);
    j := i + |StripTrailing(rest)|;
    assert s[j..] == rest[j - i..];
  }

  /** A text carries the memory as it is, except that its body ends in a line break. */
  lemma SerializeIs(m: Memory)
    ensures var w := Serialize(m).written;
            && w.(body := m.body) == m && w.body != [] && w.body[|w.body| - 1] == '\n'
            && (w.body == m.body || (w.body == m.body + ['\n'] && (m.body == [] || m.body[|m.body| - 1] != '\n')))
  {
  }

  /** Stripping either changes nothing or shortens. */
  lemma StripShortens(s: string)
    ensures |Strip(s)| <= |s| && (|Strip(s)| == |s| ==> Strip(s) == s)
  {
    StripLeadingShortens(s);
  }
}
