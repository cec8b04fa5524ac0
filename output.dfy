/** What a worker of main.go prints for one address once the reverse lookup
    has answered: with the domain-only option each name without its trailing
    dots, otherwise the address, a tab and the name. */
module Output {

  /** Go `strings.TrimRight(s, ".")`: drop every trailing '.'. */
  function TrimRightDots(s: string): (r: string)
    ensures |r| <= |s| && r == s[..|r|]
    ensures r == [] || r[|r| - 1] != '.'
    ensures forall i :: |r| <= i < |s| ==> s[i] == '.'
  {
    if |s| > 0 && s[|s| - 1] == '.' then TrimRightDots(s[..|s| - 1]) else s
  }

  /** The three properties above pin the result down: any prefix of s that
      does not end in '.' and leaves only dots behind is TrimRightDots(s). */
  lemma TrimRightUnique(s: string, t: string)
    requires |t| <= |s| && t == s[..|t|] && (t == [] || t[|t| - 1] != '.')
    requires forall i :: |t| <= i < |s| ==> s[i] == '.'
    ensures t == TrimRightDots(s)
  {
  }

  /** Trimming twice trims no more than trimming once. */
  lemma TrimRightIdempotent(s: string)
    ensures TrimRightDots(TrimRightDots(s)) == TrimRightDots(s)
  {
    var r := TrimRightDots(s);
    TrimRightUnique(r, r);
  }

  /** A resolver answers with fully qualified names; only the trailing dots go. */
  lemma TrimRightExample()
    ensures TrimRightDots("example.com.") == "example.com"
    ensures TrimRightDots("a.b..") == "a.b"
    ensures TrimRightDots("...") == ""
  {
    TrimRightUnique("example.com.", "example.com");
    TrimRightUnique("a.b..", "a.b");
    TrimRightUnique("...", "");
  }

  /** The answer of the resolver for one address: the names found, or an error. */
  datatype Lookup = Names(names: seq<string>) | LookupError

  /** The line printed for one name: `fmt.Println` separates its operands
      with a space, so the non-domain form is address, space, tab, space, name. */
  function Line(domainOnly: bool, ip: string, name: string): (line: string)
    ensures domainOnly ==> |line| <= |name| && line == name[..|line|] && (line == [] || line[|line| - 1] != '.')
    ensures domainOnly ==> forall i :: |line| <= i < |name| ==> name[i] == '.'
    ensures !domainOnly ==> |line| == |ip| + 3 + |name|
    ensures !domainOnly ==> line[..|ip|] == ip && line[|ip|..|ip| + 3] == " \t " && line[|ip| + 3..] == name
  {
    if domainOnly then TrimRightDots(name) else ip + " \t " + name
  }

  /** The body of the worker loop for one address: nothing on a lookup
      error, else one line per name, in the resolver's order. */
  method Report(domainOnly: bool, ip: string, answer: Lookup) returns (lines: seq<string>)
    ensures answer.LookupError? ==> lines == []
    ensures answer.Names? ==> |lines| == |answer.names|
    ensures answer.Names? ==> forall i :: 0 <= i < |lines| ==> lines[i] == Line(domainOnly, ip, answer.names[i])
  {
    lines := [];
    if answer.LookupError? {
      return;
    }
    var names := answer.names;
    for k := 0 to |names|
      invariant |lines| == k
      invariant forall i :: 0 <= i < k ==> lines[i] == Line(domainOnly, ip, names[i])
    {
      lines := lines + [Line(domainOnly, ip, names[k])];
    }
  }
}
