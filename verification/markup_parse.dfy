/**
  A reader for the markup `Render` writes, used as its inverse: for every
  tree whose tag names avoid the three characters `<`, `>` and `/`,
  reading the rendering gives the tree back, so the rendering determines
  the tree.
 */
module MarkupParse {
  import opened Markup

  datatype Option<T> = None | Some(value: T)

  /** Characters that may appear in a tag name without confusing the reader. */
  predicate NameChar(c: char) { c != '<' && c != '>' && c != '/' }

  predicate ValidName(n: string) { forall i :: 0 <= i < |n| ==> NameChar(n[i]) }

  /** A tree all of whose tag names are valid. */
  predicate Valid(t: Tag)
    decreases t, 1
  {
    ValidName(t.name) && ValidAll(t.items)
  }

  predicate ValidAll(ts: seq<Tag>)
    decreases ts, 0
  {
    forall i :: 0 <= i < |ts| ==> Valid(ts[i])
  }

  /** Length of the longest prefix of `s` made of name characters. */
  function NameLength(s: string): (n: nat)
    ensures n <= |s|
    ensures ValidName(s[..n])
    ensures n < |s| ==> !NameChar(s[n])
  {
    if |s| == 0 || !NameChar(s[0]) then 0
    else
      var m := NameLength(s[1..]);
      assert s[..1 + m] == [s[0]] + s[1..][..m];
      1 + m
  }

  /** Reads one tag: `<name>`, its items, `</name>`; returns the tag and what follows. */
  function ParseTag(s: string): (r: Option<(Tag, string)>)
    decreases |s|, 0
    ensures r.Some? ==> |r.value.1| < |s|
  {
    if |s| == 0 || s[0] != '<' then None
    else
      var n := NameLength(s[1..]);
      if 1 + n >= |s| || s[1 + n] != '>' then None
      else
        var name := s[1..1 + n];
        match ParseItems(s[2 + n..])
        case None => None
        case Some(p) =>
          var close := Close(name);
          if |close| <= |p.1| && p.1[..|close|] == close then Some((Tag(name, p.0), p.1[|close|..]))
          else None
  }

  /** Reads tags until a close tag starts; returns them and the text from that close tag on. */
  function ParseItems(s: string): (r: Option<(seq<Tag>, string)>)
    decreases |s|, 1
    ensures r.Some? ==> |r.value.1| <= |s|
  {
    if 2 <= |s| && s[0] == '<' && s[1] == '/' then Some(([], s))
    else
      match ParseTag(s)
      case None => None
      case Some(p) =>
        match ParseItems(p.1)
        case None => None
        case Some(q) => Some(([p.0] + q.0, q.1))
  }

  lemma NameLengthOf(name: string, rest: string)
    requires ValidName(name)
    requires |rest| > 0 && !NameChar(rest[0])
    ensures NameLength(name + rest) == |name|
  {
    var s := name + rest;
    assert forall i :: 0 <= i < |name| ==> s[i] == name[i];
    assert s[|name|] == rest[0];
  }

  /** A rendering starts with `<` and, for a valid name, not with a close tag. */
  lemma RenderStart(t: Tag, more: string)
    requires ValidName(t.name)
    ensures |Render(t) + more| >= 2 && (Render(t) + more)[0] == '<' && (Render(t) + more)[1] != '/'
  {
  }

  /** One open tag, items the reader accepts, and the matching close tag read back as one tag. */
  lemma ParseTagStep(name: string, body: string, items: seq<Tag>, rest: string)
    requires ValidName(name)
    requires ParseItems(body) == Some((items, Close(name) + rest))
    ensures ParseTag("<" + name + ">" + body) == Some((Tag(name, items), rest))
  {
    var s := "<" + name + ">" + body;
    var k := |name|;
    assert s[1..] == name + (">" + body);
    NameLengthOf(name, ">" + body);
    assert s[1 + k] == '>';
    assert s[1..1 + k] == name;
    assert s[2 + k..] == body;
    var tail := Close(name) + rest;
    assert tail[..|Close(name)|] == Close(name);
    assert tail[|Close(name)|..] == rest;
  }

  /** A tag the reader accepts, followed by items it accepts, read back as one longer list. */
  lemma ParseItemsStep(s: string, t: Tag, more: string, ts: seq<Tag>, rest: string)
    requires |s| >= 2 && s[0] == '<' && s[1] != '/'
    requires ParseTag(s) == Some((t, more))
    requires ParseItems(more) == Some((ts, rest))
    ensures ParseItems(s) == Some(([t] + ts, rest))
  {
  }

  /** Reading a valid tree's rendering, followed by anything, gives the tree and that remainder. */
  lemma {:induction false} ParseTagRender(t: Tag, rest: string)
    requires Valid(t)
    ensures ParseTag(Render(t) + rest) == Some((t, rest))
    decreases t, 1
  {
    var after := t.name + ">" + rest;
    var body := RenderItems(t.items) + "</" + after;
    ParseItemsRender(t.items, after);
    RenderSplit(t, rest);
    ParseTagStep(t.name, body, t.items, rest);
  }

  /** How a rendering followed by more text splits into open tag, items and close tag. */
  lemma RenderSplit(t: Tag, rest: string)
    ensures "</" + (t.name + ">" + rest) == Close(t.name) + rest
    ensures Render(t) + rest == "<" + t.name + ">" + (RenderItems(t.items) + "</" + (t.name + ">" + rest))
  {
  }

  /** Reading valid items' rendering, followed by a close tag, gives the items and stops at that tag. */
  lemma {:induction false} ParseItemsRender(ts: seq<Tag>, rest: string)
    requires ValidAll(ts)
    ensures ParseItems(RenderItems(ts) + "</" + rest) == Some((ts, "</" + rest))
    decreases ts, 0
  {
    var s := RenderItems(ts) + "</" + rest;
    if |ts| == 0 {
      assert s == "</" + rest;
    } else {
      var t := ts[0];
      var more := RenderItems(ts[1..]) + "</" + rest;
      assert s == Render(t) + more;
      assert Valid(t);
      RenderStart(t, more);
      ParseTagRender(t, more);
      assert ValidAll(ts[1..]) by {
        forall i | 0 <= i < |ts[1..]|
          ensures Valid(ts[1..][i])
        {
          assert ts[1..][i] == ts[i + 1];
        }
      }
      ParseItemsRender(ts[1..], rest);
      ParseItemsStep(s, t, more, ts[1..], "</" + rest);
      assert [t] + ts[1..] == ts;
    }
  }

  /** A tree with valid names is recovered from its rendering alone. */
  lemma ParseRender(t: Tag)
    requires Valid(t)
    ensures ParseTag(Render(t)) == Some((t, ""))
  {
    ParseTagRender(t, "");
    assert Render(t) + "" == Render(t);
  }

  /** Distinct trees with valid names render differently. */
  lemma RenderInjective(a: Tag, b: Tag)
    requires Valid(a) && Valid(b)
    ensures Render(a) == Render(b) <==> a == b
  {
    ParseRender(a);
    ParseRender(b);
  }
}
