/** Which lamp a connection belongs to, read off its CONNECT. */
module Identities {
  import opened Wrappers
  import opened Texts

  datatype Identity = Identity(deviceName: string, productKey: string)

  /** The user name is "name&key"; failing that, the client id is "key.name|...". A session
      is never given an empty device name. */
  function IdentityFromConnect(username: string, clientID: string): (r: Option<Identity>)
    ensures r.Some? ==> r.value.deviceName != "" && r.value.productKey != ""
  {
    var user := Cut(username, '&');
    if user.Some? && user.value.0 != "" && user.value.1 != "" then Some(Identity(user.value.0, user.value.1))
    else
      var bar := Cut(clientID, '|');
      var dot := Cut(if bar.Some? then bar.value.0 else clientID, '.');
      if dot.Some? && dot.value.0 != "" && dot.value.1 != "" then Some(Identity(dot.value.1, dot.value.0)) else None
  }

  /** The user name states this identity. */
  predicate UserSays(username: string, id: Identity) {
    && id.deviceName != "" && id.productKey != "" && '&' !in id.deviceName
    && username == id.deviceName + "&" + id.productKey
  }

  /** What stands before the first bar of a client id states it. */
  predicate HeadSays(head: string, id: Identity) {
    && id.deviceName != "" && id.productKey != "" && '.' !in id.productKey
    && head == id.productKey + "." + id.deviceName
  }

  /** head is the client id up to its first bar, if it has one. */
  ghost predicate IsHead(head: string, clientID: string) {
    '|' !in head && (clientID == head || exists rest :: clientID == head + "|" + rest)
  }

  lemma UserExactly(username: string, id: Identity)
    ensures UserSays(username, id) <==>
            Cut(username, '&') == Some((id.deviceName, id.productKey)) && id.deviceName != "" && id.productKey != ""
  {
    CutMeans(username, '&');
    if UserSays(username, id) {
      CutFirst(id.deviceName, '&', id.productKey);
    }
  }

  lemma HeadExactly(head: string, id: Identity)
    ensures HeadSays(head, id) <==>
            Cut(head, '.') == Some((id.productKey, id.deviceName)) && id.deviceName != "" && id.productKey != ""
  {
    CutMeans(head, '.');
    if HeadSays(head, id) {
      CutFirst(id.productKey, '.', id.deviceName);
    }
  }

  function HeadOf(clientID: string): string {
    var bar := Cut(clientID, '|');
    if bar.Some? then bar.value.0 else clientID
  }

  lemma HeadIsUnique(head: string, clientID: string)
    ensures IsHead(head, clientID) <==> head == HeadOf(clientID)
  {
    CutMeans(clientID, '|');
    if rest :| '|' !in head && clientID == head + "|" + rest {
      CutFirst(head, '|', rest);
    }
  }

  /** A connection is given an identity exactly when its user name states it, or no user name
      states any and its client id does, up to the first bar. */
  lemma IdentityExactly(username: string, clientID: string, id: Identity)
    ensures IdentityFromConnect(username, clientID) == Some(id) <==>
              || UserSays(username, id)
              || ((forall other :: !UserSays(username, other))
                  && exists head :: IsHead(head, clientID) && HeadSays(head, id))
  {
    forall other
      ensures UserSays(username, other) <==>
              Cut(username, '&') == Some((other.deviceName, other.productKey))
              && other.deviceName != "" && other.productKey != ""
    {
      UserExactly(username, other);
    }
    var user := Cut(username, '&');
    if user.Some? && user.value.0 != "" && user.value.1 != "" {
      assert UserSays(username, Identity(user.value.0, user.value.1));
    } else {
      var head := HeadOf(clientID);
      HeadIsUnique(head, clientID);
      HeadExactly(head, id);
      forall other | IsHead(other, clientID) ensures other == head {
        HeadIsUnique(other, clientID);
      }
    }
  }

  /** Both forms a lamp uses are read back, whatever the other field holds - except that a
      usable user name goes first. */
  lemma IdentityReadsBack(id: Identity, other: string, rest: string)
    requires id.deviceName != "" && id.productKey != ""
    ensures '&' !in id.deviceName ==>
              IdentityFromConnect(id.deviceName + "&" + id.productKey, other) == Some(id)
    ensures '&' !in other && '.' !in id.productKey && '|' !in id.productKey + "." + id.deviceName ==>
              IdentityFromConnect(other, id.productKey + "." + id.deviceName + "|" + rest) == Some(id)
  {
    var head := id.productKey + "." + id.deviceName;
    IdentityExactly(id.deviceName + "&" + id.productKey, other, id);
    if '&' !in other && '.' !in id.productKey && '|' !in head {
      assert IsHead(head, head + "|" + rest) && HeadSays(head, id);
      IdentityExactly(other, head + "|" + rest, id);
      forall them ensures !UserSays(other, them) {
        assert '&' in them.deviceName + "&" + them.productKey;
      }
    }
  }
}
