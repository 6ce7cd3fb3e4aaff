/** The string operations of the source: Python's `strip`, the trimming every record does to its own
    string fields, and `lower` as far as it can produce an ASCII word. */
module Strings {

  /** White space to the record library: Unicode's. */
  predicate Space(c: char) {
    || '\t' <= c <= '\r' || c == ' ' || c == '\U{0085}' || c == '\U{00A0}' || c == '\U{1680}'
    || '\U{2000}' <= c <= '\U{200A}' || c == '\U{2028}' || c == '\U{2029}' || c == '\U{202F}' || c == '\U{205F}' || c == '\U{3000}'
  }

  /** White space to Python's `strip`, which adds the four information separators. */
  predicate Blank(c: char) { Space(c) || '\U{001C}' <= c <= '\U{001F}' }

  function StripLeft(s: string): string {
    if s != [] && Blank(s[0]) then StripLeft(s[1..]) else s
  }

  function StripRight(s: string): string {
    if s != [] && Blank(s[|s| - 1]) then StripRight(s[..|s| - 1]) else s
  }

  function Strip(s: string): string { StripRight(StripLeft(s)) }

  function TrimLeft(s: string): string {
    if s != [] && Space(s[0]) then TrimLeft(s[1..]) else s
  }

  function TrimRight(s: string): string {
    if s != [] && Space(s[|s| - 1]) then TrimRight(s[..|s| - 1]) else s
  }

  /** What a record keeps of a string it is given. */
  function Trim(s: string): string { TrimRight(TrimLeft(s)) }

  /** Something is left once a record has trimmed it. */
  predicate Written(s: string) { Trim(s) != "" }

  ghost predicate AllBlank(s: string) { forall i :: 0 <= i < |s| ==> Blank(s[i]) }
  ghost predicate AllSpace(s: string) { forall i :: 0 <= i < |s| ==> Space(s[i]) }

  lemma {:induction false} StripLeftTakes(s: string) returns (taken: string)
    ensures s == taken + StripLeft(s) && AllBlank(taken)
  {
    hide Blank;
    taken := "";
    if s != "" && Blank(s[0]) {
      taken := StripLeftTakes(s[1..]);
      taken := [s[0]] + taken;
    }
  }

  lemma {:induction false} StripRightTakes(s: string) returns (taken: string)
    ensures s == StripRight(s) + taken && AllBlank(taken)
    ensures StripRight(s) != "" ==> !Blank(StripRight(s)[|StripRight(s)| - 1])
  {
    hide Blank;
    taken := "";
    if s != "" && Blank(s[|s| - 1]) {
      taken := StripRightTakes(s[..|s| - 1]);
      taken := taken + [s[|s| - 1]];
    }
  }

  /** `strip` takes white space from both ends, all of it, and nothing else. */
  lemma StripTakesTheEnds(s: string) returns (before: string, after: string)
    ensures s == before + Strip(s) + after && AllBlank(before) && AllBlank(after)
    ensures Strip(s) != "" ==> !Blank(Strip(s)[0]) && !Blank(Strip(s)[|Strip(s)| - 1])
  {
    hide Blank, AllBlank;
    before := StripLeftTakes(s);
    after := StripRightTakes(StripLeft(s));
    StripLeftLeaves(s);
    StripRightKeepsFirst(StripLeft(s));
  }

  lemma {:induction false} TrimLeftTakes(s: string) returns (taken: string)
    ensures s == taken + TrimLeft(s) && AllSpace(taken)
  {
    hide Space;
    taken := "";
    if s != "" && Space(s[0]) {
      taken := TrimLeftTakes(s[1..]);
      taken := [s[0]] + taken;
    }
  }

  lemma {:induction false} TrimRightTakes(s: string) returns (taken: string)
    ensures s == TrimRight(s) + taken && AllSpace(taken)
    ensures TrimRight(s) != "" ==> !Space(TrimRight(s)[|TrimRight(s)| - 1]) && TrimRight(s)[0] == s[0]
  {
    hide Space;
    taken := "";
    if s != "" && Space(s[|s| - 1]) {
      taken := TrimRightTakes(s[..|s| - 1]);
      taken := taken + [s[|s| - 1]];
    }
  }

  /** A record trims its white space from both ends, all of it, and nothing else. */
  lemma TrimTakesTheEnds(s: string) returns (before: string, after: string)
    ensures s == before + Trim(s) + after && AllSpace(before) && AllSpace(after)
    ensures Trim(s) != "" ==> !Space(Trim(s)[0]) && !Space(Trim(s)[|Trim(s)| - 1])
  {
    hide Space, AllSpace;
    before := TrimLeftTakes(s);
    after := TrimRightTakes(TrimLeft(s));
    TrimLeftLeaves(s);
  }

  lemma PlainIsKept(s: string)
    requires s != "" && !Blank(s[0]) && !Blank(s[|s| - 1])
    ensures Strip(s) == s
  {
    hide Blank;
  }

  lemma {:induction false} TrimLeftLeaves(s: string)
    ensures TrimLeft(s) == "" <==> forall i :: 0 <= i < |s| ==> Space(s[i])
    ensures TrimLeft(s) != "" ==> !Space(TrimLeft(s)[0])
  {
    hide Space;
    if s != "" {
      assert s == [s[0]] + s[1..];
      TrimLeftLeaves(s[1..]);
    }
  }

  lemma {:induction false} TrimRightLeaves(s: string)
    requires s != "" && !Space(s[0])
    ensures TrimRight(s) != ""
  {
    hide Space;
    if Space(s[|s| - 1]) { TrimRightLeaves(s[..|s| - 1]); }
  }

  /** A string is unwritten exactly when it is empty or nothing but white space. */
  lemma WrittenIff(s: string)
    ensures Written(s) <==> exists i :: 0 <= i < |s| && !Space(s[i])
  {
    hide Space;
    TrimLeftLeaves(s);
    if TrimLeft(s) != "" { TrimRightLeaves(TrimLeft(s)); }
  }

  lemma {:induction false} StripRightKeepsFirst(s: string)
    ensures StripRight(s) != "" ==> s != "" && StripRight(s)[0] == s[0]
  {
    hide Blank;
    if s != "" && Blank(s[|s| - 1]) { StripRightKeepsFirst(s[..|s| - 1]); }
  }

  lemma {:induction false} StripLeftLeaves(s: string)
    ensures StripLeft(s) != "" ==> !Blank(StripLeft(s)[0])
  {
    hide Blank;
    if s != "" && Blank(s[0]) { StripLeftLeaves(s[1..]); }
  }

  /** What `strip` leaves, a record keeps something of. */
  lemma StrippedIsWritten(s: string)
    ensures Strip(s) != "" ==> Written(Strip(s))
  {
    hide Space;
    StripLeftLeaves(s);
    StripRightKeepsFirst(StripLeft(s));
    WrittenIff(Strip(s));
  }

  /** The one letter outside ASCII whose lower case is inside it is the Kelvin sign. */
  function LowerChar(c: char): char {
    if 'A' <= c <= 'Z' then c - 'A' + 'a' else if c == '\U{212A}' then 'k' else c
  }

  function Lower(s: string): string {
    if s == "" then "" else [LowerChar(s[0])] + Lower(s[1..])
  }

  /** `lower` changes letters one by one, capitals to the same letter small and small letters not at all. */
  lemma {:induction false} LowerIsLetterwise(s: string)
    ensures |Lower(s)| == |s|
    ensures forall i :: 0 <= i < |s| && 'a' <= s[i] <= 'z' ==> Lower(s)[i] == s[i]
    ensures forall i :: 0 <= i < |s| && 'A' <= s[i] <= 'Z' ==> Lower(s)[i] as int == s[i] as int + 32
  {
    if s != "" { LowerIsLetterwise(s[1..]); }
  }

  /** A separator that occurs in neither left part marks the same place in both. */
  lemma {:induction false} FieldsSplit(sep: char, a: string, b: string, c: string, d: string)
    requires a + ([sep] + b) == c + ([sep] + d) && sep !in a && sep !in c
    ensures a == c && b == d
  {
    var l, r := a + ([sep] + b), c + ([sep] + d);
    assert c != [] ==> c[0] in c && r[0] == c[0];
    if a == [] {
      assert b == l[1..] && d == r[1..];
    } else {
      assert l[0] == a[0] && a[0] in a;
      assert l[1..] == a[1..] + ([sep] + b) && r[1..] == c[1..] + ([sep] + d);
      FieldsSplit(sep, a[1..], b, c[1..], d);
      assert a == [a[0]] + a[1..] && c == [c[0]] + c[1..];
    }
  }
}
