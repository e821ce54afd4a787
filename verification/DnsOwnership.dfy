/** Ownership text of TXT records (internal/cloudflare/dns.go): building, parsing, recognising. */
module DnsOwnership {
  import opened GoTypes
  import opened Text

  const HERITAGE := "heritage=cfgate"
  const OWNER_KEY := "cfgate/owner="
  const RESOURCE_KEY := "cfgate/resource="
  const MANAGED := "managed by cfgate"
  const TUNNEL_KEY := "tunnel="

  /** The content BuildOwnershipTXTRecord prints. */
  function OwnershipText(ownerID: string, resource: string): string {
    HERITAGE + "," + (OWNER_KEY + ownerID) + "," + (RESOURCE_KEY + resource)
  }

  datatype Metadata = Metadata(heritage: string, ownerID: string, resource: string)

  /** IsOwnedByCfgate for a record that is not nil. */
  predicate OwnedText(content: string, comment: string, ownerID: string) {
    if HasPrefix(content, HERITAGE) then ownerID == "" || Contains(content, OWNER_KEY + ownerID)
    else Contains(comment, MANAGED)
  }

  /** The value of the last part that starts with the key, empty if there is none. */
  function LastValue(parts: seq<string>, key: string): string {
    if parts == [] then ""
    else
      var p := parts[|parts| - 1];
      if HasPrefix(p, key) then p[|key|..] else LastValue(parts[..|parts| - 1], key)
  }

  /** What ParseOwnershipRecord makes of a content; None for its error. */
  function Parsed(content: string): Option<Metadata> {
    if HasPrefix(content, HERITAGE) then
      Some(Metadata("cfgate", LastValue(Split(content, ','), OWNER_KEY), LastValue(Split(content, ','), RESOURCE_KEY)))
    else if Contains(content, MANAGED) then Some(Metadata("cfgate", "", LegacyResource(content)))
    else None
  }

  /** The older form names a tunnel, up to a comma. */
  function LegacyResource(content: string): string {
    var idx := Index(content, TUNNEL_KEY);
    if idx.None? then ""
    else
      var tunnel := content[idx.value + |TUNNEL_KEY|..];
      var end := Index(tunnel, ",");
      if end.None? then tunnel else tunnel[..end.value]
  }

  method ParseOwnershipRecord(content: string) returns (r: Option<Metadata>)
    ensures r == Parsed(content)
  {
    if HasPrefix(content, HERITAGE) {
      var meta := Metadata("cfgate", "", "");
      var parts := Split(content, ',');
      for i := 0 to |parts|
        invariant meta == Metadata("cfgate", LastValue(parts[..i], OWNER_KEY), LastValue(parts[..i], RESOURCE_KEY))
      {
        var part := parts[i];
        assert parts[..i + 1][..i] == parts[..i];
        if HasPrefix(part, OWNER_KEY) {
          meta := meta.(ownerID := part[|OWNER_KEY|..]);
        }
        if HasPrefix(part, RESOURCE_KEY) {
          meta := meta.(resource := part[|RESOURCE_KEY|..]);
        }
      }
      assert parts[..|parts|] == parts;
      return Some(meta);
    }
    if Contains(content, MANAGED) {
      var meta := Metadata("cfgate", "", "");
      var idx := Index(content, TUNNEL_KEY);
      if idx.Some? {
        var tunnel := content[idx.value + |TUNNEL_KEY|..];
        var end := Index(tunnel, ",");
        meta := meta.(resource := if end.Some? then tunnel[..end.value] else tunnel);
      }
      return Some(meta);
    }
    r := None;
  }

  lemma {:induction false} LastValueFree(parts: seq<string>, key: string)
    requires forall i :: 0 <= i < |parts| ==> Free(parts[i], ',')
    ensures Free(LastValue(parts, key), ',')
  {
    if parts != [] {
      LastValueFree(parts[..|parts| - 1], key);
      assert Free(parts[|parts| - 1], ',');
    }
  }

  lemma BuiltParts(ownerID: string, resource: string)
    requires Free(ownerID, ',') && Free(resource, ',')
    ensures Split(OwnershipText(ownerID, resource), ',') == [HERITAGE, OWNER_KEY + ownerID, RESOURCE_KEY + resource]
  {
    var tail := (OWNER_KEY + ownerID) + [','] + (RESOURCE_KEY + resource);
    assert OwnershipText(ownerID, resource) == HERITAGE + [','] + tail;
    SplitJoin(HERITAGE, ',', tail);
    SplitJoin(OWNER_KEY + ownerID, ',', RESOURCE_KEY + resource);
    SplitFree(RESOURCE_KEY + resource, ',');
  }

  lemma ParsedFree(content: string)
    requires HasPrefix(content, HERITAGE)
    ensures Parsed(content).Some? && Free(Parsed(content).value.ownerID, ',') && Free(Parsed(content).value.resource, ',')
  {
    SplitFree(content, ',');
    LastValueFree(Split(content, ','), OWNER_KEY);
    LastValueFree(Split(content, ','), RESOURCE_KEY);
  }

  lemma BuiltValues(ownerID: string, resource: string)
    ensures LastValue([HERITAGE, OWNER_KEY + ownerID, RESOURCE_KEY + resource], OWNER_KEY) == ownerID
    ensures LastValue([HERITAGE, OWNER_KEY + ownerID, RESOURCE_KEY + resource], RESOURCE_KEY) == resource
  {
    var p1, p2 := OWNER_KEY + ownerID, RESOURCE_KEY + resource;
    var parts := [HERITAGE, p1, p2];
    assert parts[..2] == [HERITAGE, p1];
    assert p2[7] == 'r' && OWNER_KEY[7] == 'o';
    assert HasPrefix(p1, OWNER_KEY) && p1[|OWNER_KEY|..] == ownerID;
    assert HasPrefix(p2, RESOURCE_KEY) && p2[|RESOURCE_KEY|..] == resource;
  }

  lemma BuiltHasHeritage(ownerID: string, resource: string)
    ensures HasPrefix(OwnershipText(ownerID, resource), HERITAGE)
  {
    assert OwnershipText(ownerID, resource)[..|HERITAGE|] == HERITAGE;
  }

  /** Parsing undoes building exactly when neither the owner nor the resource contains a comma. */
  lemma ParseBuilt(ownerID: string, resource: string)
    ensures Parsed(OwnershipText(ownerID, resource)) == Some(Metadata("cfgate", ownerID, resource)) <==>
            Free(ownerID, ',') && Free(resource, ',')
  {
    BuiltHasHeritage(ownerID, resource);
    ParsedFree(OwnershipText(ownerID, resource));
    if Free(ownerID, ',') && Free(resource, ',') {
      BuiltParts(ownerID, resource);
      BuiltValues(ownerID, resource);
    }
  }

  lemma AtChar(s: string, needle: string, k: nat, i: nat)
    requires At(s, needle, k) && i < |needle|
    ensures s[k + i] == needle[i]
  {
    assert s[k..k + |needle|][i] == s[k + i];
  }

  const HEAD := HERITAGE + "," + OWNER_KEY
  const MID := "," + RESOURCE_KEY

  /** The characters of a built text, and where its equals signs can be. */
  lemma BuiltChars(ownerID: string, resource: string, i: nat)
    requires i < |OwnershipText(ownerID, resource)|
    ensures OwnershipText(ownerID, resource)[i] ==
            if i < 29 then HEAD[i]
            else if i < 29 + |ownerID| then ownerID[i - 29]
            else if i < 46 + |ownerID| then MID[i - 29 - |ownerID|]
            else resource[i - 46 - |ownerID|]
    ensures Free(ownerID, '=') && Free(resource, '=') && OwnershipText(ownerID, resource)[i] == '=' ==>
              i == 8 || i == 28 || i == 45 + |ownerID|
  {
    assert OwnershipText(ownerID, resource) == HEAD + ownerID + MID + resource;
    assert |HEAD| == 29 && |MID| == 17;
  }

  /** A built text contains the owner key followed by any prefix of the owner. */
  lemma PrefixFound(built: string, resource: string, asked: string)
    requires HasPrefix(built, asked)
    ensures Contains(OwnershipText(built, resource), OWNER_KEY + asked)
  {
    var content, needle := OwnershipText(built, resource), OWNER_KEY + asked;
    assert content == HEAD + built + MID + resource && |HEAD| == 29;
    assert HEAD[16..] == OWNER_KEY;
    assert built == asked + built[|asked|..];
    assert content[16..16 + |needle|] == needle;
    assert At(content, needle, 16);
  }

  /** The owner key can only be found where it was printed. */
  lemma FoundAtKey(built: string, resource: string, asked: string, k: nat)
    requires Free(built, '=') && Free(resource, '=')
    requires At(OwnershipText(built, resource), OWNER_KEY + asked, k)
    ensures k == 16
  {
    var content, needle := OwnershipText(built, resource), OWNER_KEY + asked;
    AtChar(content, needle, k, 12);
    AtChar(content, needle, k, 11);
    BuiltChars(built, resource, k + 12);
    BuiltChars(built, resource, k + 11);
    assert needle[12] == '=' && needle[11] == 'r';
    assert MID[15] == 'e';
  }

  /** Found there, the owner asked for is a prefix of the owner printed. */
  lemma FoundIsPrefix(built: string, resource: string, asked: string)
    requires Free(asked, ',') && At(OwnershipText(built, resource), OWNER_KEY + asked, 16)
    ensures HasPrefix(built, asked)
  {
    var content, needle := OwnershipText(built, resource), OWNER_KEY + asked;
    assert MID[0] == ',';
    forall i | 0 <= i < |asked| ensures content[29 + i] == asked[i] != ',' {
      AtChar(content, needle, 16, 13 + i);
      assert needle[13 + i] == asked[i];
    }
    if |built| < |asked| {
      BuiltChars(built, resource, 29 + |built|);
      assert false;
    }
    forall i | 0 <= i < |asked| ensures built[i] == asked[i] {
      BuiltChars(built, resource, 29 + i);
    }
  }

  /**
   * For owners and resources without "," and "=": a record built for owner O' is taken for one of
   * owner O exactly when O is a prefix of O'.
   */
  lemma OwnedByPrefix(built: string, resource: string, comment: string, asked: string)
    requires Free(built, '=') && Free(resource, '=') && Free(asked, ',')
    ensures OwnedText(OwnershipText(built, resource), comment, asked) <==> HasPrefix(built, asked)
  {
    var content, needle := OwnershipText(built, resource), OWNER_KEY + asked;
    BuiltHasHeritage(built, resource);
    if HasPrefix(built, asked) {
      PrefixFound(built, resource, asked);
    }
    if Contains(content, needle) {
      var k :| 0 <= k <= |content| && At(content, needle, k);
      FoundAtKey(built, resource, asked, k);
      FoundIsPrefix(built, resource, asked);
    }
  }

  /** Owner IDs of which none is a proper prefix of another. */
  ghost predicate PrefixFree(owners: set<string>) {
    forall a, b :: a in owners && b in owners && HasPrefix(a, b) ==> a == b
  }

  /** So among prefix-free owner IDs each recognises exactly its own ownership records. */
  lemma OwnersKeptApart(owners: set<string>, built: string, resource: string, comment: string, asked: string)
    requires PrefixFree(owners) && built in owners && asked in owners
    requires forall o :: o in owners ==> Free(o, ',') && Free(o, '=')
    requires Free(resource, '=')
    ensures OwnedText(OwnershipText(built, resource), comment, asked) <==> asked == built
  {
    OwnedByPrefix(built, resource, comment, asked);
  }

  /** Without that, "cluster-1" claims what "cluster-10" owns. */
  lemma PrefixConfusion(resource: string, comment: string)
    requires Free(resource, '=')
    ensures OwnedText(OwnershipText("cluster-10", resource), comment, "cluster-1")
  {
    assert "cluster-10"[..9] == "cluster-1";
    OwnedByPrefix("cluster-10", resource, comment, "cluster-1");
  }

  /**
   * Records that are no ownership text are recognised by their comment, whoever asks: all owner IDs
   * agree on a record exactly if its content is not of that form.
   */
  lemma CommentIgnoresOwner(content: string, comment: string)
    ensures (forall a, b :: OwnedText(content, comment, a) <==> OwnedText(content, comment, b)) <==> !HasPrefix(content, HERITAGE)
  {
    if HasPrefix(content, HERITAGE) {
      var long := content + "x";
      assert !Contains(content, OWNER_KEY + long);
      assert OwnedText(content, comment, "") && !OwnedText(content, comment, long);
    }
  }

  /** A content parses if it is an ownership text or says that cfgate manages it. */
  lemma ParsesExactly(content: string)
    ensures Parsed(content).Some? <==> "heritage=cfgate" <= content || StandsIn(content, "managed by cfgate")
  {
    ContainsExactly(content, "managed by cfgate");
  }

  /** The older form: the resource is what stands after the first "tunnel=", up to a comma. */
  lemma ParseLegacy(content: string, k: nat, tunnel: string, rest: string)
    requires !("heritage=cfgate" <= content) && StandsIn(content, "managed by cfgate")
    requires At(content, "tunnel=", k) && (forall j: nat :: j < k ==> !At(content, "tunnel=", j)) && content[k + 7..] == tunnel + rest
    requires Free(tunnel, ',') && (rest == "" || rest[0] == ',')
    ensures Parsed(content) == Some(Metadata("cfgate", "", tunnel))
  {
    ContainsExactly(content, "managed by cfgate");
    IndexIs(content, "tunnel=", k);
    FirstComma(tunnel, rest);
    assert LegacyResource(content) == tunnel;
  }

  /** Cutting at the first comma. */
  lemma FirstComma(part: string, rest: string)
    requires Free(part, ',') && (rest == "" || rest[0] == ',')
    ensures var end := Index(part + rest, ","); (if end.None? then part + rest else (part + rest)[..end.value]) == part
  {
    var s := part + rest;
    forall j: nat | j < |part| ensures !At(s, ",", j) { assert s[j] == part[j]; }
    if rest == "" {
      assert s == part;
      forall j: nat | j <= |s| ensures !At(s, ",", j) {}
      assert !Contains(s, ",");
    } else {
      assert s[|part|..|part| + 1] == ",";
      IndexIs(s, ",", |part|);
    }
  }

  /** Without a tunnel it has no resource. */
  lemma ParseLegacyBare(content: string)
    requires !("heritage=cfgate" <= content) && StandsIn(content, "managed by cfgate") && !StandsIn(content, "tunnel=")
    ensures Parsed(content) == Some(Metadata("cfgate", "", ""))
  {
    ContainsExactly(content, "managed by cfgate");
    ContainsExactly(content, "tunnel=");
    assert Index(content, "tunnel=").Some? ==> Contains(content, "tunnel=");
  }
}
