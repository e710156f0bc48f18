/** Slug construction of the newer revision (`_create_slug`): each of author
    and title loses every character other than ASCII letters, digits,
    whitespace and `-`, has its spaces turned into `-` and is lower-cased;
    the two parts are joined with `-`. */
module Slug {
  import opened Strings

  predicate IsAsciiAlnum(c: char) {
    'a' <= c <= 'z' || 'A' <= c <= 'Z' || '0' <= c <= '9'
  }

  /** Python's `\s` on `str` patterns: the characters `str.isspace()` accepts. */
  predicate IsSpace(c: char) {
    var n := c as int;
    (9 <= n <= 13) || (28 <= n <= 32) || n == 0x85 || n == 0xA0 || n == 0x1680 ||
    (0x2000 <= n <= 0x200A) || n == 0x2028 || n == 0x2029 || n == 0x202F ||
    n == 0x205F || n == 0x3000
  }

  /** The complement of `[^a-zA-Z0-9\s-]`. */
  predicate Kept(c: char) {
    IsAsciiAlnum(c) || IsSpace(c) || c == '-'
  }

  /** `re.sub(r"[^a-zA-Z0-9\s-]", "", s)`. */
  function Keep(s: string): (r: string)
    ensures |r| <= |s|
    ensures forall i :: 0 <= i < |r| ==> Kept(r[i])
    ensures forall c :: c in r <==> c in s && Kept(c)
    decreases |s|
  {
    if s == [] then []
    else (if Kept(s[0]) then [s[0]] else []) + Keep(s[1..])
  }

  /** `.replace(" ", "-")`. */
  function DashSpaces(s: string): (r: string)
    ensures |r| == |s| && ' ' !in r
    ensures ' ' !in s ==> r == s
    ensures forall c :: c != '-' ==> (c in r <==> c in s && c != ' ')
  {
    var r := seq(|s|, i requires 0 <= i < |s| => if s[i] == ' ' then '-' else s[i]);
    assert forall c :: c != '-' ==> (c in r <==> c in s && c != ' ') by {
      forall c | c != '-' ensures c in r <==> c in s && c != ' ' {
        if c in s && c != ' ' {
          var i :| 0 <= i < |s| && s[i] == c;
          assert r[i] == c;
        }
      }
    }
    r
  }

  /** The replacement works character by character, so it distributes over concatenation. */
  lemma DashSpacesAppend(a: string, b: string)
    ensures DashSpaces(a + b) == DashSpaces(a) + DashSpaces(b)
  {
    var l, r := DashSpaces(a + b), DashSpaces(a) + DashSpaces(b);
    forall i | 0 <= i < |l| ensures l[i] == r[i] {
      if i < |a| {
        assert (a + b)[i] == a[i];
      } else {
        assert (a + b)[i] == b[i - |a|];
      }
    }
  }

  /** One half of the slug. After `Keep` only ASCII letters are cased, so
      `str.lower()` is `LowerAscii` here. */
  function Part(s: string): string {
    LowerAscii(DashSpaces(Keep(s)))
  }

  /** `f"{author}-{title}"`. */
  function CreateSlug(author: string, title: string): string {
    Part(author) + "-" + Part(title)
  }

  /** The characters a slug can contain: lower-case ASCII letters, digits,
      `-`, and whitespace other than the plain space. */
  predicate SlugChar(c: char) {
    'a' <= c <= 'z' || '0' <= c <= '9' || c == '-' || (IsSpace(c) && c != ' ')
  }

  lemma PartChars(s: string)
    ensures forall i :: 0 <= i < |Part(s)| ==> SlugChar(Part(s)[i])
  {
    var k := Keep(s);
    var d := DashSpaces(k);
    forall i | 0 <= i < |Part(s)| ensures SlugChar(Part(s)[i]) {
      assert Kept(k[i]);
      assert LowerChar(d[i]) == Part(s)[i];
    }
  }

  /** A slug holds no space and no upper-case letter, only slug characters. */
  lemma SlugCharsOnly(author: string, title: string)
    ensures forall i :: 0 <= i < |CreateSlug(author, title)| ==> SlugChar(CreateSlug(author, title)[i])
    ensures ' ' !in CreateSlug(author, title)
    ensures forall i :: 0 <= i < |CreateSlug(author, title)| ==> !IsUpperAscii(CreateSlug(author, title)[i])
  {
    var a, t := Part(author), Part(title);
    PartChars(author);
    PartChars(title);
    var r := a + "-" + t;
    forall i | 0 <= i < |r| ensures SlugChar(r[i]) {
      if i < |a| {
        assert r[i] == a[i];
      } else if i > |a| {
        assert r[i] == t[i - |a| - 1];
      }
    }
  }

  /** A character of a slug part is an ASCII letter or digit, a dash, or a
      character of the text it came from. */
  lemma PartCharOrigin(s: string, i: int)
    requires 0 <= i < |Part(s)|
    ensures IsAsciiAlnum(Part(s)[i]) || Part(s)[i] == '-' || Part(s)[i] in s
  {
    var k := Keep(s);
    assert Kept(k[i]) && k[i] in k;
  }

  /** Whitespace other than the plain space survives into the slug part. */
  lemma PartKeepsSpace(s: string, c: char) returns (j: int)
    requires c in s && IsSpace(c) && c != ' '
    ensures 0 <= j < |Part(s)| && Part(s)[j] == c
  {
    var k := Keep(s);
    var d := DashSpaces(k);
    assert c in k;
    assert c in d;
    j :| 0 <= j < |d| && d[j] == c;
  }

  /** Text made only of kept characters passes `Keep` untouched. */
  lemma {:induction false} KeepAllKept(s: string)
    requires forall i :: 0 <= i < |s| ==> Kept(s[i])
    ensures Keep(s) == s
    decreases |s|
  {
    if s != [] {
      assert forall i :: 0 <= i < |s[1..]| ==> s[1..][i] == s[i + 1];
      KeepAllKept(s[1..]);
      assert s == [s[0]] + s[1..];
    }
  }

  /** `re.sub` works character by character, so it distributes over concatenation. */
  lemma {:induction false} KeepAppend(a: string, b: string)
    ensures Keep(a + b) == Keep(a) + Keep(b)
    decreases |a|
  {
    if a != [] {
      assert (a + b)[0] == a[0] && (a + b)[1..] == a[1..] + b;
      KeepAppend(a[1..], b);
    } else {
      assert a + b == b;
    }
  }

  /** Slugifying an already slugified part changes nothing. */
  lemma PartIdempotent(s: string)
    ensures Part(Part(s)) == Part(s)
  {
    var p := Part(s);
    PartChars(s);
    KeepAllKept(p);
    assert DashSpaces(p) == p;
    assert LowerAscii(p) == p;
  }
}
