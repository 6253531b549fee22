/**
  `User.computeName`: the member extension `String.computeName()`, which is
  `substringBefore("@")` — the text before the first `@`, or the whole
  string when it has none — and the users of the member-extension test.
 */
module Users {

  /** `d` occurs in `s` starting at index `k`. */
  predicate OccursAt(s: string, d: string, k: int)
  {
    0 <= k && k + |d| <= |s| && s[k..k + |d|] == d
  }

  /** `s.contains(d)`. */
  predicate Contains(s: string, d: string)
  {
    exists k :: 0 <= k <= |s| && OccursAt(s, d, k)
  }

  /** `s.indexOf(d, from)`: the first occurrence at or after `from`, or -1 when there is none. */
  function IndexOfFrom(s: string, d: string, from: nat): (i: int)
    requires from <= |s|
    decreases |s| - from
    ensures i == -1 || (from <= i && OccursAt(s, d, i))
    ensures i == -1 ==> forall k :: from <= k <= |s| ==> !OccursAt(s, d, k)
    ensures i != -1 ==> forall k :: from <= k < i ==> !OccursAt(s, d, k)
  {
    if from + |d| > |s| then -1
    else if s[from..from + |d|] == d then from
    else IndexOfFrom(s, d, from + 1)
  }

  /** `s.indexOf(d)`: the first occurrence of `d` in `s`, or -1 when there is none. */
  function IndexOf(s: string, d: string): (i: int)
    ensures -1 <= i <= |s|
    ensures i == -1 <==> !Contains(s, d)
    ensures i != -1 ==> OccursAt(s, d, i) && forall k :: 0 <= k < i ==> !OccursAt(s, d, k)
  {
    IndexOfFrom(s, d, 0)
  }

  /** `s.substringBefore(d, missing)`: the text before the first `d`, or `missing` when there is no `d`. */
  function SubstringBefore(s: string, d: string, missing: string): (r: string)
    ensures !Contains(s, d) ==> r == missing
    ensures Contains(s, d) ==> r <= s && OccursAt(s, d, |r|)
    ensures Contains(s, d) ==> forall k :: 0 <= k < |r| ==> !OccursAt(s, d, k)
  {
    var i := IndexOf(s, d);
    if i == -1 then missing else s[..i]
  }

  /** A one-character delimiter occurs exactly where that character stands. */
  lemma OccursAtChar(s: string, c: char, k: int)
    ensures OccursAt(s, [c], k) <==> 0 <= k < |s| && s[k] == c
  {
  }

  lemma ContainsChar(s: string, c: char)
    ensures Contains(s, [c]) <==> c in s
  {
    if c in s {
      var k :| 0 <= k < |s| && s[k] == c;
      OccursAtChar(s, c, k);
    }
    if Contains(s, [c]) {
      var k :| 0 <= k <= |s| && OccursAt(s, [c], k);
      OccursAtChar(s, c, k);
    }
  }

  /** `computeName`: the name is the part of the e-mail address before its first `@`,
      and the whole address when it holds none. */
  function ComputeName(email: string): (name: string)
    ensures name <= email
    ensures '@' !in name
    ensures |name| < |email| <==> '@' in email
    ensures |name| < |email| ==> email[|name|] == '@'
  {
    var name := SubstringBefore(email, "@", email);
    ContainsChar(email, '@');
    if '@' in email then
      OccursAtChar(email, '@', |name|);
      assert forall k :: 0 <= k < |name| ==> name[k] == email[k] && !OccursAt(email, "@", k);
      assert forall k :: 0 <= k < |name| ==> name[k] != '@' by {
        forall k | 0 <= k < |name|
          ensures name[k] != '@'
        {
          OccursAtChar(email, '@', k);
        }
      }
      name
    else
      name
  }

  /** The contract of `ComputeName` leaves exactly one possible name. */
  lemma ComputeNameUnique(email: string, name: string)
    requires name <= email && '@' !in name
    requires |name| == |email| || email[|name|] == '@'
    ensures name == ComputeName(email)
  {
  }

  /** A user whose `name` is computed from `email` when the object is built. */
  datatype User = User(email: string, name: string)

  /** `User(email)`. */
  function NewUser(email: string): User
  {
    User(email, ComputeName(email))
  }

  /** The test's `Guest`: built as `User(email = "empty")`, with `name` overridden
      to the name computed from "guest@xxx.com". */
  function NewGuest(): User
  {
    User("empty", ComputeName(GuestAddress))
  }

  /** The address the guest's overridden `name` is computed from. */
  const GuestAddress := "guest@xxx.com"

  /** The address the test's member is built from. */
  const MemberAddress := "kidhaibara@gmail.com"

  /** The member-extension test: the user built from `MemberAddress` is named "kidhaibara",
      and the guest is named "guest". */
  lemma MemberExtensionNames()
    ensures NewUser(MemberAddress).name == "kidhaibara"
    ensures NewGuest().name == "guest"
  {
    MemberName();
    GuestName();
  }

  /** The member's name is the part of its address before the `@`. */
  lemma MemberName()
    ensures NewUser(MemberAddress).name == "kidhaibara"
  {
    assert MemberAddress == "kidhaibara" + "@" + "gmail.com" by {
      assert "kidhaibara" + "@" == "kidhaibara@";
    }
    NameBeforeAt("kidhaibara", "gmail.com");
  }

  /** The guest's overriding `name` is the part of `GuestAddress` before the `@`. */
  lemma GuestName()
    ensures NewGuest().name == "guest"
  {
    assert GuestAddress == "guest" + "@" + "xxx.com" by {
      assert "guest" + "@" == "guest@";
    }
    NameBeforeAt("guest", "xxx.com");
  }

  /** An address written as a name without '@', then '@', then a domain, yields that name. */
  lemma NameBeforeAt(name: string, domain: string)
    requires '@' !in name
    ensures ComputeName(name + "@" + domain) == name
  {
    var email := name + "@" + domain;
    assert email[|name|] == '@';
    assert email[..|name|] == name;
    ComputeNameUnique(email, name);
  }
}
