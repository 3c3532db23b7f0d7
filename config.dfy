/**
 * The user-configurable settings of GSync: a record of four optional strings,
 * with the emptiness and completeness checks and the field-wise merge that
 * lets one configuration override another.
 */
module Config {
  import opened Wrappers

  /** One GSync configuration. Every field may be absent. */
  datatype Configuration = Configuration(
    client_id: Option<string>,      // Google client ID
    client_secret: Option<string>,  // Google client secret
    input_files: Option<string>,    // the pattern of local files to sync
    drive_id: Option<string>        // the shared drive to sync to, if any
  )

  /** The names of the four fields, so that contracts can speak of "every field". */
  datatype Field = ClientId | ClientSecret | InputFiles | DriveId

  /** The value of field `f` of `c`. */
  function Get(c: Configuration, f: Field): Option<string>
  {
    match f
    case ClientId => c.client_id
    case ClientSecret => c.client_secret
    case InputFiles => c.input_files
    case DriveId => c.drive_id
  }

  /** The column name of field `f`, as it appears in diagnostics. */
  function FieldName(f: Field): string
  {
    match f
    case ClientId => "client_id"
    case ClientSecret => "client_secret"
    case InputFiles => "input_files"
    case DriveId => "drive_id"
  }

  /** The fields a configuration must have to be usable, in the order they are checked. */
  const Required: seq<Field> := [ClientId, ClientSecret, InputFiles]

  /** Two configurations are equal exactly when they agree on every field. */
  lemma {:induction false} FieldsDetermineConfiguration(a: Configuration, b: Configuration)
    ensures a == b <==> forall f :: Get(a, f) == Get(b, f)
  {
    if forall f :: Get(a, f) == Get(b, f) {
      assert Get(a, ClientId) == Get(b, ClientId);
      assert Get(a, ClientSecret) == Get(b, ClientSecret);
      assert Get(a, InputFiles) == Get(b, InputFiles);
      assert Get(a, DriveId) == Get(b, DriveId);
    }
  }

  /** `is_empty`: no field is set. */
  function IsEmpty(c: Configuration): (b: bool)
    ensures b <==> forall f :: Get(c, f) == None
  {
    assert Get(c, ClientId) == c.client_id && Get(c, ClientSecret) == c.client_secret;
    assert Get(c, InputFiles) == c.input_files && Get(c, DriveId) == c.drive_id;
    c.input_files.None? && c.client_id.None? && c.client_secret.None? && c.drive_id.None?
  }

  /** `empty`: the configuration with every field absent. */
  function Empty(): (r: Configuration)
    ensures IsEmpty(r)
    ensures forall c :: IsEmpty(c) ==> c == r
  {
    Configuration(None, None, None, None)
  }

  /**
   * `is_complete`: whether every required field is set, and if not, a message naming
   * the first required field that is absent. `drive_id` is never required.
   */
  function IsComplete(c: Configuration): (r: (bool, string))
    ensures r.0 <==> forall i :: 0 <= i < |Required| ==> Get(c, Required[i]).Some?
    ensures r.0 <==> r.1 == ""
  {
    if c.client_id.None? then
      assert Get(c, Required[0]).None?;
      (false, "'client_id' is empty")
    else if c.client_secret.None? then
      assert Get(c, Required[1]).None?;
      (false, "'client_secret' is empty")
    else if c.input_files.None? then
      assert Get(c, Required[2]).None?;
      (false, "'input_files' is empty")
    else
      (true, "")
  }

  /**
   * The position in `fs` of the first field that `c` lacks, or `|fs|` when `c` has
   * them all.
   */
  function FirstAbsentIndex(c: Configuration, fs: seq<Field>): (k: nat)
    ensures k <= |fs|
    ensures forall j :: 0 <= j < k ==> Get(c, fs[j]).Some?
    ensures k < |fs| ==> Get(c, fs[k]).None?
  {
    if fs == [] then 0
    else if Get(c, fs[0]).None? then 0
    else 1 + FirstAbsentIndex(c, fs[1..])
  }

  /** The diagnostic for a missing field `f`. */
  function MissingMessage(f: Field): string
  {
    "'" + FieldName(f) + "' is empty"
  }

  /** The diagnostics spelled out, as `is_complete` writes them. */
  lemma MissingMessageLiterals()
    ensures MissingMessage(ClientId) == "'client_id' is empty"
    ensures MissingMessage(ClientSecret) == "'client_secret' is empty"
    ensures MissingMessage(InputFiles) == "'input_files' is empty"
  {
  }

  /**
   * A reference definition of the completeness diagnostic: walk the required fields in
   * order and report the first absent one by its name.
   */
  function Diagnose(c: Configuration): (bool, string)
  {
    var k := FirstAbsentIndex(c, Required);
    if k == |Required| then (true, "") else (false, MissingMessage(Required[k]))
  }

  /** `is_complete` reports exactly what the ordered walk over the required fields reports. */
  lemma IsCompleteIsDiagnose(c: Configuration)
    ensures IsComplete(c) == Diagnose(c)
  {
    MissingMessageLiterals();
    var k := FirstAbsentIndex(c, Required);
    assert Required[0] == ClientId && Required[1] == ClientSecret && Required[2] == InputFiles;
    if c.client_id.None? {
      assert k == 0;
    } else if c.client_secret.None? {
      assert Get(c, Required[0]).Some? && Get(c, Required[1]).None?;
      assert k == 1;
    } else if c.input_files.None? {
      assert Get(c, Required[1]).Some? && Get(c, Required[2]).None?;
      assert k == 2;
    } else {
      assert k == 3;
    }
  }

  /** The diagnostic names one required field, absent from `c`, after which all earlier ones are present. */
  lemma IsCompleteNamesFirstAbsent(c: Configuration)
    ensures !IsComplete(c).0 ==>
      exists k :: 0 <= k < |Required| && Get(c, Required[k]).None?
        && (forall j :: 0 <= j < k ==> Get(c, Required[j]).Some?)
        && IsComplete(c).1 == MissingMessage(Required[k])
  {
    IsCompleteIsDiagnose(c);
    var k := FirstAbsentIndex(c, Required);
    if !IsComplete(c).0 {
      assert k < |Required|;
    }
  }

  /** `drive_id` never affects the completeness check. */
  lemma IsCompleteIgnoresDriveId(c: Configuration, d: Option<string>)
    ensures IsComplete(c.(drive_id := d)) == IsComplete(c)
  {
  }

  /** The empty configuration fails on `client_id`, the first field checked. */
  lemma IsCompleteOnEmpty()
    ensures IsComplete(Empty()) == (false, "'client_id' is empty")
  {
  }

  /**
   * `merge`: field by field, `a`'s value if it has one, otherwise `b`'s.
   */
  function Merge(a: Configuration, b: Configuration): (r: Configuration)
    ensures forall f :: Get(r, f) == if Get(a, f).Some? then Get(a, f) else Get(b, f)
    ensures IsEmpty(r) <==> IsEmpty(a) && IsEmpty(b)
    ensures IsComplete(r).0 <==>
      forall i :: 0 <= i < |Required| ==> Get(a, Required[i]).Some? || Get(b, Required[i]).Some?
  {
    var client_id := match a.client_id { case Some(s) => Some(s) case None => b.client_id };
    var client_secret := match a.client_secret { case Some(s) => Some(s) case None => b.client_secret };
    var input_files := match a.input_files { case Some(s) => Some(s) case None => b.input_files };
    var drive_id := match a.drive_id { case Some(s) => Some(s) case None => b.drive_id };
    Configuration(client_id, client_secret, input_files, drive_id)
  }

  /** The empty configuration is a two-sided identity of `merge`. */
  lemma MergeIdentity(c: Configuration)
    ensures Merge(c, Empty()) == c
    ensures Merge(Empty(), c) == c
  {
  }

  /** Merging a configuration with itself changes nothing. */
  lemma MergeIdempotent(c: Configuration)
    ensures Merge(c, c) == c
  {
  }

  /** Merging is associative, so a chain of overrides may be grouped either way. */
  lemma MergeAssociative(a: Configuration, b: Configuration, c: Configuration)
    ensures Merge(Merge(a, b), c) == Merge(a, Merge(b, c))
  {
  }

  /** Where both configurations set a field, the first one wins. */
  lemma MergePrimaryWins(a: Configuration, b: Configuration, f: Field)
    requires Get(a, f).Some?
    ensures Get(Merge(a, b), f) == Get(a, f)
  {
  }

  /**
   * The order of the arguments matters exactly when the two configurations set some
   * field to different values.
   */
  lemma {:induction false} MergeCommutesIffConsistent(a: Configuration, b: Configuration)
    ensures Merge(a, b) == Merge(b, a) <==>
      forall f :: Get(a, f).Some? && Get(b, f).Some? ==> Get(a, f) == Get(b, f)
  {
    FieldsDetermineConfiguration(Merge(a, b), Merge(b, a));
    if Merge(a, b) == Merge(b, a) {
      forall f | Get(a, f).Some? && Get(b, f).Some?
        ensures Get(a, f) == Get(b, f)
      {
        assert Get(Merge(a, b), f) == Get(Merge(b, a), f);
      }
    }
  }
}
