/**
  The registry's composite key, `CosmosClientManager.key`: endpoint, database
  and container joined by `|`, followed by the hexadecimal `hashCode` of the
  account key (empty for a null account key). Java string concatenation
  renders a null part as the text "null".
 */
module ClientKey {
  import opened Wrappers
  import JavaText
  import Lifecycle

  /** How `+` on a Java string renders a possibly null part. */
  function Render(s: Option<string>): (t: string)
    ensures s.Some? ==> t == s.value
    ensures s.None? ==> t == "null"
  {
    match s
    case None => "null"
    case Some(v) => v
  }

  /** The credential fingerprint: empty for a null key, otherwise the hex
      digits of its hash, which never contain the separator. */
  function Fingerprint(accountKey: Option<string>): (f: string)
    ensures accountKey.None? <==> f == ""
    ensures '|' !in f
    ensures accountKey.Some? ==> f != "" && forall i :: 0 <= i < |f| ==> JavaText.IsHexDigit(f[i])
    ensures accountKey.Some? ==> JavaText.FromHex(f) == JavaText.StringHash(accountKey.value)
    ensures |f| <= 8
  {
    match accountKey
    case None => ""
    case Some(k) =>
      var f := JavaText.ToHex(JavaText.StringHash(k));
      JavaText.HexRoundTrip(JavaText.StringHash(k));
      JavaText.Hex32Length(JavaText.StringHash(k));
      f
  }

  /** The composite registry key of one logical target: it starts with the
      rendered endpoint and a separator, and ends with the separator itself
      exactly when the account key is null. */
  function CompositeKey(endpoint: Option<string>, db: Option<string>, container: Option<string>,
                        accountKey: Option<string>): (k: string)
    ensures |k| > |Render(endpoint)| && k[..|Render(endpoint)| + 1] == Render(endpoint) + "|"
    ensures k[|k| - 1] == '|' <==> accountKey.None?
  {
    var e, d, c, f := Render(endpoint), Render(db), Render(container), Fingerprint(accountKey);
    Join(c, f);
    Join(d, c + "|" + f);
    Join(e, d + "|" + (c + "|" + f));
    e + "|" + (d + "|" + (c + "|" + f))
  }

  /** Joining `a` and `b` with the separator: `a` and the separator come
      first, and the last character is the separator exactly when `b` is
      empty. */
  lemma Join(a: string, b: string)
    ensures var s := a + "|" + b;
            |s| == |a| + 1 + |b| && s[..|a| + 1] == a + "|" &&
            s[|s| - 1] == (if b == [] then '|' else b[|b| - 1])
  {
  }

  /** In `a + "|" + b` with no separator in `a`, the first separator sits
      right after `a`. */
  lemma FirstSeparator(a: string, b: string)
    requires '|' !in a
    ensures (a + "|" + b)[|a|] == '|'
    ensures forall j :: 0 <= j < |a| ==> (a + "|" + b)[j] != '|'
  {
  }

  /** Splitting `a + "|" + b` at its first separator gives back `a` and `b`. */
  lemma SplitAtSeparator(a: string, b: string, a': string, b': string)
    requires '|' !in a && '|' !in a'
    requires a + "|" + b == a' + "|" + b'
    ensures a == a' && b == b'
  {
    FirstSeparator(a, b);
    FirstSeparator(a', b');
    if |a| < |a'| {
      assert false;
    } else if |a'| < |a| {
      assert false;
    }
    var s := a + "|" + b;
    assert a == s[..|a|] == a';
    assert b == s[|a| + 1..] == b';
  }

  /** As long as endpoint, database and container do not contain the
      separator, equal keys mean the same rendered target and the same
      fingerprint. */
  lemma KeyDeterminesTarget(e1: Option<string>, d1: Option<string>, c1: Option<string>, k1: Option<string>,
                            e2: Option<string>, d2: Option<string>, c2: Option<string>, k2: Option<string>)
    requires '|' !in Render(e1) && '|' !in Render(d1) && '|' !in Render(c1)
    requires '|' !in Render(e2) && '|' !in Render(d2) && '|' !in Render(c2)
    requires CompositeKey(e1, d1, c1, k1) == CompositeKey(e2, d2, c2, k2)
    ensures Render(e1) == Render(e2) && Render(d1) == Render(d2) && Render(c1) == Render(c2)
    ensures Fingerprint(k1) == Fingerprint(k2)
    ensures k1.None? <==> k2.None?
    ensures k1.Some? ==> JavaText.StringHash(k1.value) == JavaText.StringHash(k2.value)
  {
    var f1, f2 := Fingerprint(k1), Fingerprint(k2);
    SplitAtSeparator(Render(e1), Render(d1) + "|" + (Render(c1) + "|" + f1),
                     Render(e2), Render(d2) + "|" + (Render(c2) + "|" + f2));
    SplitAtSeparator(Render(d1), Render(c1) + "|" + f1, Render(d2), Render(c2) + "|" + f2);
    SplitAtSeparator(Render(c1), f1, Render(c2), f2);
    if k1.Some? && k2.Some? {
      JavaText.HexInjective(JavaText.StringHash(k1.value), JavaText.StringHash(k2.value));
    }
  }

  /** Two different credentials for the same endpoint, database and container
      can share one key. */
  lemma CredentialsCollide(endpoint: Option<string>, db: Option<string>, container: Option<string>)
    ensures CompositeKey(endpoint, db, container, Some("Aa")) == CompositeKey(endpoint, db, container, Some("BB"))
  {
    JavaText.HashCollision();
  }

  /** A caller with the second of two colliding credentials is silently
      handed the client that was built with the first one. */
  lemma CollidingCredentialShares(m: Lifecycle.Clients, endpoint: Option<string>, db: Option<string>,
                                  container: Option<string>, keepAliveSeconds: int, built: Lifecycle.Handle)
    requires CompositeKey(endpoint, db, container, Some("Aa")) in m
    ensures Lifecycle.Admit(m, CompositeKey(endpoint, db, container, Some("BB")), keepAliveSeconds, built).1 ==
            m[CompositeKey(endpoint, db, container, Some("Aa"))].client
  {
    CredentialsCollide(endpoint, db, container);
  }

  /** A null part and the literal text "null" give the same key. */
  lemma NullRendersAsText(db: Option<string>, container: Option<string>, accountKey: Option<string>)
    ensures CompositeKey(None, db, container, accountKey) == CompositeKey(Some("null"), db, container, accountKey)
  {
  }
}
