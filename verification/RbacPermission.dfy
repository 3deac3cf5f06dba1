/** Permission tokens "resource_type:action": parsing, printing and wildcard matching. */
module RbacPermission {
  import opened Common

  datatype RBACPermission = RBACPermission(resourceType: string, action: string)

  /** One side of the pattern: not empty, no colon and no white space. */
  predicate Token(t: string) {
    t != "" && forall i :: 0 <= i < |t| ==> t[i] != ':' && !IsSpace(t[i])
  }

  /** The position of the first colon, or the length when there is none. */
  function ColonAt(s: string): (i: nat)
    ensures i <= |s|
    ensures i < |s| ==> s[i] == ':'
    ensures forall j :: 0 <= j < i ==> s[j] != ':'
  {
    if s == "" || s[0] == ':' then 0 else 1 + ColonAt(s[1..])
  }

  function FromString(s: string): Result<RBACPermission> {
    var i := ColonAt(s);
    if i < |s| && Token(s[..i]) && Token(s[i + 1..]) then Ok(RBACPermission(s[..i], s[i + 1..]))
    else Err(ValidationError)
  }

  function ToString(p: RBACPermission): string {
    p.resourceType + ":" + p.action
  }

  predicate Matches(granted: RBACPermission, required: RBACPermission) {
    && (granted.resourceType == "*" || granted.resourceType == required.resourceType)
    && (granted.action == "*" || granted.action == required.action)
  }

  /** Printing then parsing gives the permission back exactly when both parts are tokens. */
  lemma ParsePrint(p: RBACPermission)
    ensures FromString(ToString(p)) == Ok(p) <==> Token(p.resourceType) && Token(p.action)
  {
    var s := ToString(p);
    var n := |p.resourceType|;
    assert s[..n] == p.resourceType && s[n] == ':' && s[n + 1..] == p.action;
    if Token(p.resourceType) {
      assert forall j :: 0 <= j < n ==> s[j] == p.resourceType[j];
      assert ColonAt(s) == n;
    }
  }

  /** Parsing accepts exactly the texts of the pattern token:token, and printing the result restores the text. */
  lemma ParseAcceptsPattern(s: string)
    ensures FromString(s).Ok? <==> exists a, b :: Token(a) && Token(b) && s == a + ":" + b
    ensures FromString(s).Ok? ==> ToString(FromString(s).value) == s
  {
    if FromString(s).Ok? {
      var p := FromString(s).value;
      assert s == p.resourceType + ":" + p.action;
    }
    forall a, b | Token(a) && Token(b) && s == a + ":" + b ensures FromString(s).Ok? {
      ParsePrint(RBACPermission(a, b));
    }
  }

  /** The permission asked for, and the three in which a star stands for its type, its action or both. */
  function Granting(resourceType: string, action: string): set<string> {
    {resourceType + ":" + action, "*" + ":" + action, resourceType + ":" + "*", "*" + ":" + "*"}
  }

  /** A text that parses is one permission exactly when it is that permission printed. */
  lemma ParsedText(s: string, p: RBACPermission)
    requires FromString(s).Ok? && Token(p.resourceType) && Token(p.action)
    ensures FromString(s).value == p <==> s == ToString(p)
  {
    ParsePrint(p);
    ParseAcceptsPattern(s);
  }

  /** A stored permission matches a required one exactly when its text is one of these four. */
  lemma MatchesByText(p: string, resourceType: string, action: string)
    requires Token(resourceType) && Token(action) && FromString(p).Ok?
    ensures FromString(resourceType + ":" + action) == Ok(RBACPermission(resourceType, action))
    ensures Matches(FromString(p).value, RBACPermission(resourceType, action)) <==> p in Granting(resourceType, action)
  {
    ParsePrint(RBACPermission(resourceType, action));
    ParsedText(p, RBACPermission(resourceType, action));
    ParsedText(p, RBACPermission("*", action));
    ParsedText(p, RBACPermission(resourceType, "*"));
    ParsedText(p, RBACPermission("*", "*"));
  }
}
