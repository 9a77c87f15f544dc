/** `transform_partners_rgpd`: keeps partner rows with a shop name and an
    address, replaces the three contact fields by a salted hash, and turns
    empty optional texts into None. */
module PartnersCleaner {
  import opened Base
  import opened Text

  /** A partner row as read from the spreadsheet; an empty cell or a missing
      key is None. */
  datatype RawPartner = RawPartner(
    nomLibrairie: Option<string>,
    adresse: Option<string>,
    codePostal: Option<string>,
    ville: Option<string>,
    contactNom: Option<string>,
    contactEmail: Option<string>,
    contactTelephone: Option<string>,
    caAnnuel: Option<string>,
    datePartenariat: Option<string>,
    specialite: Option<string>)

  /** A redacted partner: the eight keys of the output dict. */
  datatype CleanPartner = CleanPartner(
    nomLibrairie: string,
    adresse: string,
    codePostal: Option<string>,
    ville: Option<string>,
    specialite: Option<string>,
    caAnnuel: Option<string>,
    datePartenariat: Option<string>,
    contactHash: string)

  /** `dict.get(key)` on a spreadsheet record. */
  function Lookup(m: map<string, Option<string>>, key: string): Option<string> {
    if key in m then m[key] else None
  }

  /** The row a record from the spreadsheet reader stands for; columns the
      cleaner does not read are ignored. */
  function FromRecord(m: map<string, Option<string>>): RawPartner {
    RawPartner(
      Lookup(m, "nom_librairie"), Lookup(m, "adresse"), Lookup(m, "code_postal"),
      Lookup(m, "ville"), Lookup(m, "contact_nom"), Lookup(m, "contact_email"),
      Lookup(m, "contact_telephone"), Lookup(m, "ca_annuel"),
      Lookup(m, "date_partenariat"), Lookup(m, "specialite"))
  }

  // ---------------------------------------------------------------------
  // _hash_contact
  // ---------------------------------------------------------------------

  /** The salt when `PII_SALT` is unset. */
  const DefaultSalt: string := "change_me"

  /** `os.getenv("PII_SALT", "change_me")`, given the variable's value if set. */
  function Salt(env: Option<string>): string {
    env.GetOr(DefaultSalt)
  }

  predicate NoBar(s: string) {
    forall i :: 0 <= i < |s| ==> s[i] != '|'
  }

  /** The string that is encoded and hashed: the three contact fields and the
      salt, separated by `|`. */
  function ContactString(nom: string, email: string, tel: string, salt: string): (s: string)
    ensures |s| == |nom| + |email| + |tel| + |salt| + 3
    ensures s[|nom|] == '|' && s[|nom| + 1 + |email|] == '|' && s[|nom| + |email| + |tel| + 2] == '|'
  {
    nom + "|" + email + "|" + tel + "|" + salt
  }

  /** `_hash_contact`: `hash` stands for SHA-256 (FIPS 180-4) of the UTF-8
      encoding, written as lower-case hex. */
  function HashContact(hash: string -> string, nom: string, email: string, tel: string, salt: string): string {
    hash(ContactString(nom, email, tel, salt))
  }

  /** Two `|`-terminated leading fields without `|` are the same field. */
  lemma SplitAtBar(a: string, x: string, b: string, y: string)
    requires NoBar(a) && NoBar(b)
    requires a + "|" + x == b + "|" + y
    ensures a == b && x == y
  {
    var s := a + "|" + x;
    assert s[|a|] == '|' && s[|b|] == '|';
    assert a == s[..|a|] && b == (b + "|" + y)[..|b|];
    assert x == s[|a| + 1..] && y == (b + "|" + y)[|b| + 1..];
  }

  /** When no contact field contains `|`, the hashed string determines the
      fields and the salt: distinct contacts never share a hash input. */
  lemma {:induction false} ContactStringInjective(
    nom1: string, email1: string, tel1: string, salt1: string,
    nom2: string, email2: string, tel2: string, salt2: string)
    requires NoBar(nom1) && NoBar(email1) && NoBar(tel1)
    requires NoBar(nom2) && NoBar(email2) && NoBar(tel2)
    requires ContactString(nom1, email1, tel1, salt1) == ContactString(nom2, email2, tel2, salt2)
    ensures nom1 == nom2 && email1 == email2 && tel1 == tel2 && salt1 == salt2
  {
    ContactStringNested(nom1, email1, tel1, salt1);
    ContactStringNested(nom2, email2, tel2, salt2);
    var q1, q2 := tel1 + "|" + salt1, tel2 + "|" + salt2;
    var r1, r2 := email1 + "|" + q1, email2 + "|" + q2;
    SplitAtBar(nom1, r1, nom2, r2);
    SplitAtBar(email1, q1, email2, q2);
    SplitAtBar(tel1, salt1, tel2, salt2);
  }

  /** The hashed string, grouped from the right. */
  lemma ContactStringNested(nom: string, email: string, tel: string, salt: string)
    ensures ContactString(nom, email, tel, salt) == nom + "|" + (email + "|" + (tel + "|" + salt))
  {
  }

  /** The separator is not escaped, so a `|` inside a field can make two
      different contacts hash alike. */
  lemma SeparatorCollision(hash: string -> string, salt: string)
    ensures HashContact(hash, "a|b", "c", "d", salt) == HashContact(hash, "a", "b|c", "d", salt)
  {
    assert ContactString("a|b", "c", "d", salt) == ContactString("a", "b|c", "d", salt);
  }

  // ---------------------------------------------------------------------
  // transform_partners_rgpd
  // ---------------------------------------------------------------------

  /** `(x or "").strip()`. */
  function Trimmed(o: Option<string>): (s: string)
    ensures IsStripped(s)
    ensures s == "" <==> forall i :: 0 <= i < |o.GetOr("")| ==> IsSpace(o.GetOr("")[i])
  {
    StripIsStripped(o.GetOr(""));
    StripEmptyIff(o.GetOr(""));
    Strip(o.GetOr(""))
  }

  /** `(x or "").strip() or None`: the trimmed text, or None when nothing but
      white space was there. */
  function OptionalText(o: Option<string>): (r: Option<string>)
    ensures r.Some? ==> r.value != "" && IsStripped(r.value)
    ensures r.None? <==> forall i :: 0 <= i < |o.GetOr("")| ==> IsSpace(o.GetOr("")[i])
    ensures r.Some? ==> o.Some? && r.value == Strip(o.value)
  {
    var s := Trimmed(o);
    if s == "" then None else Some(s)
  }

  /** What every emitted partner satisfies. */
  predicate WellFormed(c: CleanPartner) {
    && c.nomLibrairie != "" && IsStripped(c.nomLibrairie)
    && c.adresse != "" && IsStripped(c.adresse)
    && (c.codePostal.Some? ==> c.codePostal.value != "" && IsStripped(c.codePostal.value))
    && (c.ville.Some? ==> c.ville.value != "" && IsStripped(c.ville.value))
    && (c.specialite.Some? ==> c.specialite.value != "" && IsStripped(c.specialite.value))
  }

  /** The rule applied to one row. */
  function ConvertPartner(r: RawPartner, salt: string, hash: string -> string): Option<CleanPartner> {
    var nom := Trimmed(r.nomLibrairie);
    var adresse := Trimmed(r.adresse);
    if nom == "" || adresse == "" then None
    else
      var h := HashContact(hash, Trimmed(r.contactNom), Trimmed(r.contactEmail), Trimmed(r.contactTelephone), salt);
      Some(CleanPartner(
        nom, adresse,
        OptionalText(r.codePostal), OptionalText(r.ville), OptionalText(r.specialite),
        r.caAnnuel, r.datePartenariat, h))
  }

  /** A row is kept exactly when its trimmed shop name and address are
      non-empty; a kept row is well formed, carries those trimmed texts, the
      hash of the three trimmed contact fields and the salt, the postal code,
      town and speciality each as its trimmed text or None when blank, and
      the turnover and partnership date unchanged. */
  lemma ConvertPartnerSpec(r: RawPartner, salt: string, hash: string -> string)
    ensures ConvertPartner(r, salt, hash).Some? <==> Trimmed(r.nomLibrairie) != "" && Trimmed(r.adresse) != ""
    ensures ConvertPartner(r, salt, hash).Some? ==>
              var c := ConvertPartner(r, salt, hash).value;
              && WellFormed(c)
              && c.nomLibrairie == Strip(r.nomLibrairie.GetOr(""))
              && c.adresse == Strip(r.adresse.GetOr(""))
              && c.contactHash
                 == hash(Trimmed(r.contactNom) + "|" + Trimmed(r.contactEmail) + "|"
                         + Trimmed(r.contactTelephone) + "|" + salt)
              && c.codePostal == OptionalText(r.codePostal)
              && c.ville == OptionalText(r.ville)
              && c.specialite == OptionalText(r.specialite)
              && c.caAnnuel == r.caAnnuel
              && c.datePartenariat == r.datePartenariat
  {
  }

  /** The rule applied to every row, in order. */
  function Converted(rows: seq<RawPartner>, salt: string, hash: string -> string): (os: seq<Option<CleanPartner>>)
    ensures |os| == |rows|
    ensures forall k :: 0 <= k < |rows| ==> os[k] == ConvertPartner(rows[k], salt, hash)
  {
    if |rows| == 0 then [] else [ConvertPartner(rows[0], salt, hash)] + Converted(rows[1..], salt, hash)
  }

  lemma {:induction false} ConvertedAppend(a: seq<RawPartner>, b: seq<RawPartner>, salt: string, hash: string -> string)
    ensures Converted(a + b, salt, hash) == Converted(a, salt, hash) + Converted(b, salt, hash)
  {
    var l, r := Converted(a + b, salt, hash), Converted(a, salt, hash) + Converted(b, salt, hash);
    forall k | 0 <= k < |l| ensures l[k] == r[k] {
      if k < |a| {
        assert (a + b)[k] == a[k];
      } else {
        assert (a + b)[k] == b[k - |a|];
      }
    }
  }

  /** `transform_partners_rgpd(rows, logger)`, given the value of `PII_SALT`
      if set: never longer than its input, and every partner it emits is
      well formed and the image of one of its rows. */
  function TransformPartners(rows: seq<RawPartner>, env: Option<string>, hash: string -> string): (out: seq<CleanPartner>)
    ensures |out| <= |rows|
    ensures forall c :: c in out ==> WellFormed(c)
    ensures forall c :: c in out ==> exists k :: 0 <= k < |rows| && ConvertPartner(rows[k], Salt(env), hash) == Some(c)
  {
    var os := Converted(rows, Salt(env), hash);
    forall k | 0 <= k < |rows| ensures os[k].Some? ==> WellFormed(os[k].value) {
      ConvertPartnerSpec(rows[k], Salt(env), hash);
    }
    assert forall c :: Some(c) in os ==> exists k :: 0 <= k < |rows| && os[k] == Some(c);
    Somes(os)
  }

  /** The transform is an order-preserving filter without deduplication. */
  lemma TransformPartnersAppend(a: seq<RawPartner>, b: seq<RawPartner>, env: Option<string>, hash: string -> string)
    ensures TransformPartners(a + b, env, hash) == TransformPartners(a, env, hash) + TransformPartners(b, env, hash)
  {
    ConvertedAppend(a, b, Salt(env), hash);
    SomesAppend(Converted(a, Salt(env), hash), Converted(b, Salt(env), hash));
  }

  /** On one row the transform is that row's rule, with the salt from the
      environment or the default. */
  lemma TransformPartnersSingle(r: RawPartner, env: Option<string>, hash: string -> string)
    ensures TransformPartners([r], env, hash)
            == (var o := ConvertPartner(r, Salt(env), hash); if o.Some? then [o.value] else [])
    ensures env.None? ==>
              TransformPartners([r], env, hash)
              == (var o := ConvertPartner(r, "change_me", hash); if o.Some? then [o.value] else [])
  {
    assert Converted([r], Salt(env), hash) == [ConvertPartner(r, Salt(env), hash)];
    assert [ConvertPartner(r, Salt(env), hash)][1..] == [];
  }

  /** The output dict of a redacted partner. */
  function AsDict(c: CleanPartner): (d: map<string, Option<string>>)
    ensures d.Keys == {"nom_librairie", "adresse", "code_postal", "ville", "specialite",
                       "ca_annuel", "date_partenariat", "contact_hash"}
    ensures "contact_nom" !in d && "contact_email" !in d && "contact_telephone" !in d
  {
    map["nom_librairie" := Some(c.nomLibrairie), "adresse" := Some(c.adresse),
        "code_postal" := c.codePostal, "ville" := c.ville, "specialite" := c.specialite,
        "ca_annuel" := c.caAnnuel, "date_partenariat" := c.datePartenariat,
        "contact_hash" := Some(c.contactHash)]
  }
}
