/** The key store that can encrypt its keys (src/keystore.h, src/keystore.cpp). Signatures, hashes and
    the cipher are functions about which only what is stated is known. */
module KeyStore {
  import opened Wrappers
  import opened Ascending

  type Bytes = seq<int>

  datatype Key = Key(secret: Bytes, compressed: bool)

  type PubKey = Bytes

  /** The size of a secret and of a master key. */
  const KEY_SIZE := 32

  datatype World = World(
    publicKey: Key -> PubKey,
    isCompressed: PubKey -> bool,
    id: PubKey -> int,
    iv: PubKey -> Bytes,
    encrypt: (Bytes, Bytes, Bytes) -> Option<Bytes>,
    decrypt: (Bytes, Bytes, Bytes) -> Option<Bytes>)
  {
    /** A public key tells whether it is compressed, and decryption undoes encryption. */
    ghost predicate Sound() {
      && (forall key :: isCompressed(publicKey(key)) == key.compressed)
      && (forall k, v, p :: encrypt(k, v, p).Some? ==> decrypt(k, v, encrypt(k, v, p).value) == Some(p))
    }

    function IdOf(key: Key): int {
      id(publicKey(key))
    }

    /** EncryptSecret. */
    function EncryptSecret(master: Bytes, secret: Bytes, pub: PubKey): Option<Bytes> {
      if |master| != KEY_SIZE then None else encrypt(master, iv(pub), secret)
    }

    /** DecryptSecret. */
    function DecryptSecret(master: Bytes, crypted: Bytes, pub: PubKey): Option<Bytes> {
      if |master| != KEY_SIZE then None else decrypt(master, iv(pub), crypted)
    }
  }

  datatype Crypted = Crypted(pub: PubKey, secret: Bytes)

  datatype Store = Store(keys: map<int, Key>, crypted: map<int, Crypted>, master: Bytes, useCrypto: bool)

  // ----- what a store means -----

  function Decrypted(w: World, master: Bytes, c: Crypted): Option<Key> {
    var secret := w.DecryptSecret(master, c.secret, c.pub);
    if secret.None? || |secret.value| != KEY_SIZE then None else Some(Key(secret.value, w.isCompressed(c.pub)))
  }

  /** The key that a store gives for an address. */
  function KeyOf(w: World, s: Store, id: int): Option<Key> {
    if !s.useCrypto then (if id in s.keys then Some(s.keys[id]) else None)
    else if id in s.crypted then Decrypted(w, s.master, s.crypted[id]) else None
  }

  /** The addresses that a store knows. */
  function Ids(s: Store): set<int> {
    if s.useCrypto then s.crypted.Keys else s.keys.Keys
  }

  /** The invariant that the header states. */
  ghost predicate Valid(s: Store) {
    && (s.useCrypto ==> s.keys == map[])
    && (!s.useCrypto ==> s.master == [] && s.crypted == map[])
  }

  /** Keys are valid and stored under the addresses of their own public keys. */
  ghost predicate Own(w: World, keys: map<int, Key>) {
    forall id :: id in keys ==> w.IdOf(keys[id]) == id && |keys[id].secret| == KEY_SIZE
  }

  predicate CanEncrypt(w: World, master: Bytes, key: Key) {
    w.EncryptSecret(master, key.secret, w.publicKey(key)).Some?
  }

  /** The encrypted form of a key. */
  function Form(w: World, master: Bytes, key: Key): Crypted
    requires CanEncrypt(w, master, key)
  {
    Crypted(w.publicKey(key), w.EncryptSecret(master, key.secret, w.publicKey(key)).value)
  }

  ghost predicate AllEncrypt(w: World, master: Bytes, keys: map<int, Key>) {
    forall id :: id in keys ==> CanEncrypt(w, master, keys[id])
  }

  ghost predicate EncryptIn(w: World, master: Bytes, keys: map<int, Key>, ids: seq<int>) {
    forall i :: 0 <= i < |ids| ==> ids[i] in keys && CanEncrypt(w, master, keys[ids[i]])
  }

  /** What encrypting the keys of these addresses in turn stores; each goes to the address of its public key. */
  ghost function EncryptedIn(w: World, master: Bytes, keys: map<int, Key>, ids: seq<int>): map<int, Crypted>
    requires EncryptIn(w, master, keys, ids)
  {
    if |ids| == 0 then map[]
    else
      var k := |ids| - 1;
      EncryptedIn(w, master, keys, ids[..k])[w.IdOf(keys[ids[k]]) := Form(w, master, keys[ids[k]])]
  }

  /** The store after its keys have been encrypted in the order of their addresses, with a master key in memory. */
  ghost function Converted(w: World, master: Bytes, keys: map<int, Key>, inMemory: Bytes): Store
    requires AllEncrypt(w, master, keys)
  {
    Store(map[], EncryptedIn(w, master, keys, Sorted(keys.Keys)), inMemory, true)
  }

  /** Whether a master key fits the first encrypted key, if there is one. */
  function Opens(w: World, crypted: map<int, Crypted>, master: Bytes): bool {
    if |crypted.Keys| == 0 then true
    else
      var c := crypted[Least(crypted.Keys)];
      var key := Decrypted(w, master, c);
      key.Some? && w.publicKey(key.value) == c.pub
  }

  // ----- the code -----

  class CryptoKeyStore {
    const w: World
    var keys: map<int, Key>
    var crypted: map<int, Crypted>
    var master: Bytes
    var useCrypto: bool

    ghost function View(): Store
      reads this
    {
      Store(keys, crypted, master, useCrypto)
    }

    constructor (w0: World)
      ensures w == w0 && View() == Store(map[], map[], [], false) && Valid(View())
    {
      w := w0;
      keys, crypted, master, useCrypto := map[], map[], [], false;
    }

    function IsLocked(): bool
      reads this
    {
      useCrypto && master == []
    }

    method SetCrypted() returns (ok: bool)
      modifies this`useCrypto
      ensures ok <==> old(useCrypto) || keys == map[]
      ensures useCrypto == ok
    {
      if useCrypto { return true; }
      if |keys| != 0 { return false; }
      useCrypto := true;
      ok := true;
    }

    method Lock() returns (ok: bool)
      modifies this`useCrypto, this`master
      ensures ok <==> old(useCrypto) || keys == map[]
      ensures ok ==> View() == old(View()).(master := [], useCrypto := true)
      ensures !ok ==> View() == old(View())
    {
      ok := SetCrypted();
      if !ok { return; }
      master := [];
    }

    /** Only the first encrypted key is tried. */
    method Unlock(masterIn: Bytes) returns (ok: bool)
      modifies this`useCrypto, this`master
      ensures ok <==> (old(useCrypto) || keys == map[]) && Opens(w, crypted, masterIn)
      ensures ok ==> View() == old(View()).(master := masterIn, useCrypto := true)
      ensures !ok ==> View() == old(View()).(useCrypto := old(useCrypto) || keys == map[])
      ensures old(useCrypto) ==> (ok <==> (|crypted.Keys| > 0 ==> Yields(w, masterIn, crypted[Least(crypted.Keys)])))
    {
      OpensExactly(w, crypted, masterIn);
      ok := SetCrypted();
      if !ok { return; }
      if |crypted.Keys| != 0 {
        var c := crypted[Least(crypted.Keys)];
        var secret := w.DecryptSecret(masterIn, c.secret, c.pub);
        if secret.None? { return false; }
        if |secret.value| != KEY_SIZE { return false; }
        var key := Key(secret.value, w.isCompressed(c.pub));
        if w.publicKey(key) != c.pub { return false; }
      }
      master := masterIn;
    }

    method AddCryptedKey(pub: PubKey, secret: Bytes) returns (ok: bool)
      modifies this`useCrypto, this`crypted
      ensures ok <==> old(useCrypto) || keys == map[]
      ensures ok ==> View() == old(View()).(crypted := old(crypted)[w.id(pub) := Crypted(pub, secret)],
        useCrypto := true)
      ensures !ok ==> View() == old(View())
    {
      ok := SetCrypted();
      if !ok { return; }
      crypted := crypted[w.id(pub) := Crypted(pub, secret)];
    }

    method AddKeyPubKey(key: Key, pub: PubKey) returns (ok: bool)
      modifies this
      ensures ok <==> !old(useCrypto) || w.EncryptSecret(old(master), key.secret, pub).Some?
      ensures ok && !old(useCrypto) ==> View() == old(View()).(keys := old(keys)[w.id(pub) := key])
      ensures ok && old(useCrypto) ==> View() == old(View()).(crypted :=
        old(crypted)[w.id(pub) := Crypted(pub, w.EncryptSecret(old(master), key.secret, pub).value)])
      ensures !ok ==> View() == old(View())
    {
      if !useCrypto {
        keys := keys[w.id(pub) := key];
        return true;
      }
      if IsLocked() { return false; }
      var secret := w.EncryptSecret(master, key.secret, pub);
      if secret.None? { return false; }
      ok := AddCryptedKey(pub, secret.value);
    }

    method AddKey(key: Key) returns (ok: bool)
      requires Valid(View()) && Own(w, keys) && |key.secret| == KEY_SIZE
      modifies this
      ensures Valid(View()) && Own(w, keys)
      ensures ok <==> !old(useCrypto) || CanEncrypt(w, old(master), key)
      ensures ok && w.Sound() ==>
        forall id :: KeyOf(w, View(), id) == (if id == w.IdOf(key) then Some(key) else KeyOf(w, old(View()), id))
      ensures !ok ==> View() == old(View())
    {
      ok := AddKeyPubKey(key, w.publicKey(key));
    }

    method GetKey(id: int) returns (r: Option<Key>)
      ensures r == KeyOf(w, View(), id)
    {
      if !useCrypto {
        if id in keys { return Some(keys[id]); }
        return None;
      }
      if id in crypted {
        var c := crypted[id];
        var secret := w.DecryptSecret(master, c.secret, c.pub);
        if secret.None? { return None; }
        if |secret.value| != KEY_SIZE { return None; }
        return Some(Key(secret.value, w.isCompressed(c.pub)));
      }
      r := None;
    }

    method HaveKey(id: int) returns (have: bool)
      ensures have <==> id in Ids(View())
    {
      if !useCrypto { return id in keys; }
      have := id in crypted;
    }

    method GetPubKey(id: int) returns (r: Option<PubKey>)
      ensures r == if useCrypto then (if id in crypted then Some(crypted[id].pub) else None)
        else if id in keys then Some(w.publicKey(keys[id])) else None
    {
      if !useCrypto {
        var key := GetKey(id);
        if key.None? { return None; }
        return Some(w.publicKey(key.value));
      }
      if id in crypted { return Some(crypted[id].pub); }
      r := None;
    }

    method GetKeys() returns (ids: set<int>)
      ensures ids == Ids(View())
    {
      var left := if useCrypto then crypted.Keys else keys.Keys;
      ids := {};
      while |left| > 0
        invariant left <= Ids(View()) && ids == Ids(View()) - left
        decreases |left|
      {
        var id := Least(left);
        ids := ids + {id};
        left := left - {id};
      }
    }

    /** Encrypts every key in the order of the addresses; stops at the first one that cannot be. */
    method EncryptKeys(masterIn: Bytes) returns (ok: bool)
      modifies this
      ensures old(crypted) != map[] || old(useCrypto) ==> !ok && View() == old(View())
      ensures old(crypted) == map[] && !old(useCrypto) ==> EncryptionStep(w, masterIn, old(View()), View(), ok)
    {
      if |crypted| != 0 || useCrypto { return false; }
      useCrypto := true;
      var ids := Sorted(keys.Keys);
      var n := EncryptEach(masterIn, ids);
      if n < |ids| {
        assert StopsAt(w, masterIn, old(View()), View(), n);
        return false;
      }
      assert ids[..n] == ids;
      AllOfSorted(w, masterIn, keys);
      keys := map[];
      ok := true;
    }

    /** The loop of EncryptKeys; the number of keys that have been encrypted. */
    method EncryptEach(masterIn: Bytes, ids: seq<int>) returns (n: nat)
      requires useCrypto && crypted == map[] && forall i :: 0 <= i < |ids| ==> ids[i] in keys
      modifies this
      ensures n <= |ids| && EncryptIn(w, masterIn, keys, ids[..n])
      ensures View() == old(View()).(crypted := EncryptedIn(w, masterIn, keys, ids[..n]))
      ensures n < |ids| ==> !CanEncrypt(w, masterIn, keys[ids[n]])
    {
      n := 0;
      while n < |ids|
        invariant n <= |ids| && EncryptIn(w, masterIn, keys, ids[..n])
        invariant View() == old(View()).(crypted := EncryptedIn(w, masterIn, keys, ids[..n]))
      {
        var key := keys[ids[n]];
        var pub := w.publicKey(key);
        var secret := w.EncryptSecret(masterIn, key.secret, pub);
        if secret.None? { return; }
        EncryptsOneMore(w, masterIn, keys, ids, n);
        var added := AddCryptedKey(pub, secret.value);
        assert added;
        n := n + 1;
      }
    }
  }

  /** A master key takes the secret of an entry to 32 bytes whose public key, compressed or not like the stored one,
      is the stored one. */
  ghost predicate Yields(w: World, master: Bytes, c: Crypted) {
    exists p: Bytes :: |master| == |p| == 32 && w.decrypt(master, w.iv(c.pub), c.secret) == Some(p)
      && w.publicKey(Key(p, w.isCompressed(c.pub))) == c.pub
  }

  lemma YieldsExactly(w: World, master: Bytes, c: Crypted)
    ensures Yields(w, master, c) <==>
      (Decrypted(w, master, c).Some? && w.publicKey(Decrypted(w, master, c).value) == c.pub)
  {
    var p := w.decrypt(master, w.iv(c.pub), c.secret);
    if p.Some? { assert w.decrypt(master, w.iv(c.pub), c.secret) == Some(p.value); }
  }

  /** A master key opens a store exactly when it yields the key of the least address. */
  lemma OpensExactly(w: World, crypted: map<int, Crypted>, master: Bytes)
    ensures Opens(w, crypted, master) <==> (|crypted.Keys| > 0 ==> Yields(w, master, crypted[Least(crypted.Keys)]))
  {
    if |crypted.Keys| > 0 { YieldsExactly(w, master, crypted[Least(crypted.Keys)]); }
  }

  lemma EncryptsOneMore(w: World, master: Bytes, keys: map<int, Key>, ids: seq<int>, n: nat)
    requires n < |ids| && EncryptIn(w, master, keys, ids[..n])
    requires ids[n] in keys && CanEncrypt(w, master, keys[ids[n]])
    ensures EncryptIn(w, master, keys, ids[..n + 1])
    ensures EncryptedIn(w, master, keys, ids[..n + 1]) ==
      EncryptedIn(w, master, keys, ids[..n])[w.IdOf(keys[ids[n]]) := Form(w, master, keys[ids[n]])]
  {
    assert ids[..n + 1][..n] == ids[..n];
  }

  lemma AllOfSorted(w: World, master: Bytes, keys: map<int, Key>)
    ensures EncryptIn(w, master, keys, Sorted(keys.Keys)) <==> AllEncrypt(w, master, keys)
  {
    var ids := Sorted(keys.Keys);
    if EncryptIn(w, master, keys, ids) {
      forall id | id in keys ensures CanEncrypt(w, master, keys[id]) {
        assert id in ids;
        var i :| 0 <= i < |ids| && ids[i] == id;
      }
    }
  }

  /** Encryption has stopped at the n-th address: the keys are still there, beside the forms of those before it. */
  ghost predicate StopsAt(w: World, master: Bytes, s: Store, t: Store, n: nat) {
    var ids := Sorted(s.keys.Keys);
    && n < |ids| && EncryptIn(w, master, s.keys, ids[..n]) && !CanEncrypt(w, master, s.keys[ids[n]])
    && t == Store(s.keys, EncryptedIn(w, master, s.keys, ids[..n]), s.master, true)
  }

  /** What EncryptKeys makes of a store that is not encrypted. */
  ghost predicate EncryptionStep(w: World, master: Bytes, s: Store, t: Store, ok: bool) {
    if ok then AllEncrypt(w, master, s.keys) && t == Converted(w, master, s.keys, s.master)
    else exists n :: StopsAt(w, master, s, t, n)
  }

  // ----- encryption preserves what the store means -----

  /** What is stored at an address is the form of a key that belongs there. */
  lemma {:induction false} EntryOf(w: World, master: Bytes, keys: map<int, Key>, ids: seq<int>, id: int)
    returns (k: int)
    requires EncryptIn(w, master, keys, ids) && id in EncryptedIn(w, master, keys, ids)
    ensures k in ids && k in keys && w.IdOf(keys[k]) == id && CanEncrypt(w, master, keys[k])
    ensures EncryptedIn(w, master, keys, ids)[id] == Form(w, master, keys[k])
    decreases |ids|
  {
    var last := ids[|ids| - 1];
    if w.IdOf(keys[last]) == id {
      k := last;
    } else {
      k := EntryOf(w, master, keys, ids[..|ids| - 1], id);
      assert k in ids;
    }
  }

  lemma {:induction false} HasEntry(w: World, master: Bytes, keys: map<int, Key>, ids: seq<int>, i: nat)
    requires EncryptIn(w, master, keys, ids) && i < |ids|
    ensures w.IdOf(keys[ids[i]]) in EncryptedIn(w, master, keys, ids)
    decreases |ids|
  {
    if i < |ids| - 1 { HasEntry(w, master, keys, ids[..|ids| - 1], i); }
  }

  /** Keys at the addresses of their own public keys are stored there in their encrypted form. */
  lemma OwnEntries(w: World, master: Bytes, keys: map<int, Key>, id: int)
    requires Own(w, keys) && AllEncrypt(w, master, keys)
    ensures var crypted := Converted(w, master, keys, []).crypted;
      (id in crypted <==> id in keys) && (id in keys ==> crypted[id] == Form(w, master, keys[id]))
  {
    var ids := Sorted(keys.Keys);
    AllOfSorted(w, master, keys);
    if id in keys {
      assert id in ids;
      var i :| 0 <= i < |ids| && ids[i] == id;
      HasEntry(w, master, keys, ids, i);
    }
    if id in EncryptedIn(w, master, keys, ids) {
      var k := EntryOf(w, master, keys, ids, id);
      assert k == id;
    }
  }

  /** What is stored for a key that can be encrypted: its public key, and its secret under the master key. */
  lemma EntriesExactly(w: World, master: Bytes, keys: map<int, Key>, id: int)
    requires Own(w, keys) && id in keys
    ensures CanEncrypt(w, master, keys[id]) <==>
      |master| == 32 && w.encrypt(master, w.iv(w.publicKey(keys[id])), keys[id].secret).Some?
    ensures AllEncrypt(w, master, keys) ==>
      var pub := w.publicKey(keys[id]);
      var entries := Converted(w, master, keys, []).crypted;
      && id in entries && entries[id].pub == pub
      && Some(entries[id].secret) == w.encrypt(master, w.iv(pub), keys[id].secret)
  {
    if AllEncrypt(w, master, keys) { OwnEntries(w, master, keys, id); }
  }

  /** Exactly when a store gives a key for an address. */
  lemma GivesExactly(w: World, s: Store, id: int, key: Key)
    ensures !s.useCrypto ==> (KeyOf(w, s, id) == Some(key) <==> id in s.keys && s.keys[id] == key)
    ensures s.useCrypto ==> (KeyOf(w, s, id) == Some(key) <==>
      && id in s.crypted && |s.master| == |key.secret| == 32
      && w.decrypt(s.master, w.iv(s.crypted[id].pub), s.crypted[id].secret) == Some(key.secret)
      && key.compressed == w.isCompressed(s.crypted[id].pub))
  {
  }

  /** Decrypting what was encrypted. */
  lemma FormDecrypts(w: World, master: Bytes, key: Key)
    requires w.Sound() && CanEncrypt(w, master, key)
    ensures Decrypted(w, master, Form(w, master, key)) == if |key.secret| == KEY_SIZE then Some(key) else None
  {
    var pub := w.publicKey(key);
    assert w.isCompressed(pub) == key.compressed;
    assert w.decrypt(master, w.iv(pub), w.encrypt(master, w.iv(pub), key.secret).value) == Some(key.secret);
  }

  /** Under the right master key every address gives the key it gave before. */
  lemma SameKey(w: World, master: Bytes, keys: map<int, Key>, id: int)
    requires w.Sound() && Own(w, keys) && AllEncrypt(w, master, keys)
    ensures KeyOf(w, Converted(w, master, keys, master), id) == KeyOf(w, Store(keys, map[], [], false), id)
  {
    OwnEntries(w, master, keys, id);
    if id in keys { FormDecrypts(w, master, keys[id]); }
  }

  /** All addresses keep their keys exactly when each key was a valid one at the address of its public key. */
  lemma SameKeysExactly(w: World, master: Bytes, keys: map<int, Key>)
    requires w.Sound() && AllEncrypt(w, master, keys)
    ensures Own(w, keys) <==>
      forall id :: KeyOf(w, Converted(w, master, keys, master), id) == KeyOf(w, Store(keys, map[], [], false), id)
  {
    if Own(w, keys) {
      forall id
        ensures KeyOf(w, Converted(w, master, keys, master), id) == KeyOf(w, Store(keys, map[], [], false), id)
      {
        SameKey(w, master, keys, id);
      }
    } else {
      var id :| id in keys && !(w.IdOf(keys[id]) == id && |keys[id].secret| == KEY_SIZE);
      ForeignKeyIsLost(w, master, keys, id);
    }
  }

  lemma ForeignKeyIsLost(w: World, master: Bytes, keys: map<int, Key>, id: int)
    requires w.Sound() && AllEncrypt(w, master, keys)
    requires id in keys && !(w.IdOf(keys[id]) == id && |keys[id].secret| == KEY_SIZE)
    ensures KeyOf(w, Converted(w, master, keys, master), id) != Some(keys[id])
  {
    AllOfSorted(w, master, keys);
    if id in Converted(w, master, keys, master).crypted {
      var k := EntryOf(w, master, keys, Sorted(keys.Keys), id);
      FormDecrypts(w, master, keys[k]);
    }
  }

  /** The same addresses are known, whether the store is locked or not. */
  lemma SameIds(w: World, master: Bytes, keys: map<int, Key>, inMemory: Bytes)
    requires Own(w, keys) && AllEncrypt(w, master, keys)
    ensures Ids(Converted(w, master, keys, inMemory)) == Ids(Store(keys, map[], [], false))
  {
    forall id ensures id in Converted(w, master, keys, inMemory).crypted <==> id in keys {
      OwnEntries(w, master, keys, id);
    }
  }

  /** The master key that encrypted the keys opens the store. */
  lemma RightKeyOpens(w: World, master: Bytes, keys: map<int, Key>)
    requires w.Sound() && Own(w, keys) && AllEncrypt(w, master, keys)
    ensures Opens(w, Converted(w, master, keys, master).crypted, master)
  {
    var crypted := Converted(w, master, keys, master).crypted;
    if |crypted.Keys| > 0 {
      var id := Least(crypted.Keys);
      OwnEntries(w, master, keys, id);
      FormDecrypts(w, master, keys[id]);
    }
  }

  /** Under m, what encrypting the secret of a key under a master key has made is 32 bytes with the same public key. */
  ghost predicate Passes(w: World, master: Bytes, key: Key, m: Bytes) {
    var pub := w.publicKey(key);
    exists p: Bytes :: |m| == |p| == 32
      && w.encrypt(master, w.iv(pub), key.secret).Some?
      && w.decrypt(m, w.iv(pub), w.encrypt(master, w.iv(pub), key.secret).value) == Some(p)
      && w.publicKey(Key(p, key.compressed)) == pub
  }

  /** The master keys that unlock a store which EncryptKeys has made: those that take the secret of its first key,
      as encrypted, to one with the same public key. */
  lemma UnlocksExactly(w: World, master: Bytes, keys: map<int, Key>, a: int, m: Bytes)
    requires w.Sound() && Own(w, keys) && AllEncrypt(w, master, keys)
    requires a in keys && forall b :: b in keys ==> a <= b
    ensures Opens(w, Converted(w, master, keys, master).crypted, m) <==> Passes(w, master, keys[a], m)
  {
    FirstEntry(w, master, keys, a);
    OpensExactly(w, Converted(w, master, keys, master).crypted, m);
    assert w.isCompressed(w.publicKey(keys[a])) == keys[a].compressed;
  }

  lemma FirstEntry(w: World, master: Bytes, keys: map<int, Key>, a: int)
    requires Own(w, keys) && AllEncrypt(w, master, keys)
    requires a in keys && forall b :: b in keys ==> a <= b
    ensures var crypted := Converted(w, master, keys, master).crypted;
      |crypted.Keys| > 0 && Least(crypted.Keys) == a && crypted[a] == Form(w, master, keys[a])
  {
    var crypted := Converted(w, master, keys, master).crypted;
    OwnEntries(w, master, keys, a);
    assert a in crypted.Keys;
    OwnEntries(w, master, keys, Least(crypted.Keys));
  }

  /** A locked store gives no key. */
  lemma LockedGivesNothing(w: World, s: Store, id: int)
    requires s.useCrypto && s.master == []
    ensures KeyOf(w, s, id) == None
  {
  }

  /** The invariant of the header survives EncryptKeys exactly when every key can be encrypted. Otherwise the keys
      are still in memory, and no address gives one. */
  lemma EncryptionKeepsInvariant(w: World, master: Bytes, s: Store, t: Store, ok: bool)
    requires Valid(s) && !s.useCrypto && EncryptionStep(w, master, s, t, ok)
    ensures ok <==> AllEncrypt(w, master, s.keys)
    ensures Valid(t) <==> AllEncrypt(w, master, s.keys)
    ensures !ok ==> t.keys == s.keys != map[] && forall id :: KeyOf(w, t, id).None?
  {
    if !ok {
      var n: nat :| StopsAt(w, master, s, t, n);
      StoppedStore(w, master, s, t, n);
      forall id ensures KeyOf(w, t, id).None? { LockedGivesNothing(w, t, id); }
    }
  }

  lemma StoppedStore(w: World, master: Bytes, s: Store, t: Store, n: nat)
    requires StopsAt(w, master, s, t, n)
    ensures !AllEncrypt(w, master, s.keys) && t.keys == s.keys != map[] && t.useCrypto && t.master == s.master
  {
    var id := Sorted(s.keys.Keys)[n];
    assert id in s.keys.Keys && !CanEncrypt(w, master, s.keys[id]);
  }

  /** A master key of the wrong size breaks the invariant of every store that has a key. */
  lemma ShortMasterKey(w: World, s: Store, master: Bytes, t: Store, ok: bool)
    requires Valid(s) && s.keys != map[] && |master| != KEY_SIZE && EncryptionStep(w, master, s, t, ok)
    ensures !ok && !Valid(t)
  {
    assert !s.useCrypto;
    var id :| id in s.keys;
    assert !CanEncrypt(w, master, s.keys[id]);
    EncryptionKeepsInvariant(w, master, s, t, ok);
  }

  /** Such a store: one key and an empty master key. */
  lemma InvariantBreaks(w: World, key: Key)
    ensures var s := Store(map[w.IdOf(key) := key], map[], [], false);
      Valid(s) && EncryptionStep(w, [], s, s.(useCrypto := true), false) && !Valid(s.(useCrypto := true))
  {
    var s := Store(map[w.IdOf(key) := key], map[], [], false);
    var ids := Sorted(s.keys.Keys);
    assert s.keys.Keys == {w.IdOf(key)} && |ids| == 1 && ids[0] in s.keys.Keys;
    assert ids[..0] == [];
    assert StopsAt(w, [], s, s.(useCrypto := true), 0);
  }

  /** A store is encrypted under one master key, locked, and another one is tried: it unlocks the store exactly when
      it takes the first secret, as encrypted, to one with the same public key. Otherwise the store stays locked. */
  method EncryptLockTry(store: CryptoKeyStore, master: Bytes, m: Bytes) returns (encrypted: bool, ok: bool)
    requires Valid(store.View()) && Own(store.w, store.keys) && store.w.Sound() && !store.useCrypto
    modifies store
    ensures encrypted <==> AllEncrypt(store.w, master, old(store.keys))
    ensures encrypted ==> store.master == if ok then m else []
    ensures encrypted ==> var keys := old(store.keys);
      forall a :: a in keys && (forall b :: b in keys ==> a <= b) ==> (ok <==> Passes(store.w, master, keys[a], m))
  {
    ghost var w, keys := store.w, store.keys;
    ok := false;
    encrypted := store.EncryptKeys(master);
    if !encrypted { return; }
    forall a | a in keys && forall b :: b in keys ==> a <= b
      ensures Opens(w, Converted(w, master, keys, master).crypted, m) <==> Passes(w, master, keys[a], m)
    {
      UnlocksExactly(w, master, keys, a, m);
    }
    var locked := store.Lock();
    ok := store.Unlock(m);
  }

  /** A store whose keys are encrypted and that is locked and unlocked again is the same to its users. */
  method EncryptLockUnlock(store: CryptoKeyStore, master: Bytes) returns (ok: bool)
    requires Valid(store.View()) && Own(store.w, store.keys) && store.w.Sound() && !store.useCrypto
    modifies store
    ensures ok <==> AllEncrypt(store.w, master, old(store.keys))
    ensures ok ==> Valid(store.View()) && store.keys == map[] && Ids(store.View()) == Ids(old(store.View()))
    ensures ok ==> forall id :: KeyOf(store.w, store.View(), id) == KeyOf(store.w, old(store.View()), id)
  {
    ghost var keys := store.keys;
    ok := store.EncryptKeys(master);
    if !ok { return; }
    forall id
      ensures KeyOf(store.w, Converted(store.w, master, keys, master), id) ==
        KeyOf(store.w, Store(keys, map[], [], false), id)
    {
      SameKey(store.w, master, keys, id);
    }
    SameIds(store.w, master, keys, master);
    RightKeyOpens(store.w, master, keys);
    var locked := store.Lock();
    ok := store.Unlock(master);
  }
}
