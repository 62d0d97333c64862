/** The spool file of one create request (`create_attachment` in api/api_attachments.py): staged under a
    temporary name, published under the minted id, removed again on every refusal. */
module SpoolLifecycle {
  import opened PyText
  import opened Staging

  datatype SpoolFile = Temp(id: nat) | Published(id: nat)

  datatype Content = PlainBytes(data: seq<byte>) | Ciphertext(of: seq<byte>) | PartialCiphertext

  datatype VaultWrite = Written | VaultLocked | WriteFails
  datatype JsonCheck = NotJson | ValidJson | InvalidJson | CheckRaises
  datatype Submit = Fresh | ReplayPending | ReplayCommitted | Conflict | QueueFull | NotReady | SubmitRaises

  /** Everything the request meets on its way. `unlinkOk`: removing a file succeeds; `CheckRaises`: the JSON
      check fails with something that is not a ValueError. */
  datatype World = World(
    vaultOn: bool, tempOk: bool, upload: Stream, vaultWrite: VaultWrite, json: JsonCheck,
    ciphertextTooLarge: bool, renameOk: bool, submit: Submit, unlinkOk: bool)

  datatype Response = Created | Replayed | Refused | Locked | InternalError | Escaped

  function Verdict(w: World, hash: Hash): Outcome {
    StageOf(Received(w.upload.chunks), Breaks(w.upload), hash)
  }

  /** A temporary file came into being: at once for plain staging, after the last read under the vault. */
  predicate TempMade(w: World, hash: Hash) {
    w.tempOk && (w.vaultOn ==> Verdict(w, hash).Staged?)
  }

  /** The upload was staged completely and is not empty. */
  predicate StagedWell(w: World, hash: Hash) {
    w.tempOk && Verdict(w, hash).Staged? && Verdict(w, hash).size > 0 && (w.vaultOn ==> w.vaultWrite == Written)
  }

  /** The staged file passes every check and can be renamed, unless the name is taken. */
  predicate Publishes(w: World, hash: Hash) {
    StagedWell(w, hash) && w.json != CheckRaises && !w.ciphertextTooLarge && w.renameOk
  }

  class Spool {
    var files: map<SpoolFile, Content>

    constructor ()
      ensures files == map[]
    {
      files := map[];
    }

    /** Best effort, never raises. */
    method Discard(f: SpoolFile, unlinkOk: bool)
      modifies this
      ensures files == if unlinkOk then old(files) - {f} else old(files)
    {
      if unlinkOk { files := files - {f}; }
    }

    /** Stage under a temporary name.  Unless it succeeds, whatever was made is removed if that works. */
    method StageUpload(id: nat, w: World, hash: Hash) returns (r: Response, o: Outcome)
      requires Temp(id) !in files
      modifies this
      ensures r == Created <==> w.tempOk && Verdict(w, hash).Staged? && (w.vaultOn ==> w.vaultWrite == Written)
      ensures r != Replayed && r != Escaped
      ensures r == Locked <==> w.vaultOn && w.tempOk && Verdict(w, hash).Staged? && w.vaultWrite == VaultLocked
      ensures r == Refused <==> Verdict(w, hash).TooLarge? && (w.vaultOn || w.tempOk)
      ensures r == Created ==> o == Verdict(w, hash)
      ensures r == Created ==> files == old(files)[Temp(id) :=
                if w.vaultOn then Ciphertext(Received(w.upload.chunks)) else PlainBytes(Received(w.upload.chunks))]
      ensures r != Created && (w.unlinkOk || !TempMade(w, hash)) ==> files == old(files)
      ensures r != Created && !w.unlinkOk && TempMade(w, hash) ==>
                Temp(id) in files && files == old(files)[Temp(id) := files[Temp(id)]]
                && (w.vaultOn ==> !files[Temp(id)].PlainBytes?)
    {
      o := Broken;
      if w.vaultOn {
        var data;
        o, data := StageInMemory(w.upload, hash);
        if !o.Staged? { return if o.TooLarge? then Refused else InternalError, o; }
        if !w.tempOk { return InternalError, o; }
        files := files[Temp(id) := PartialCiphertext];
        if w.vaultWrite == Written {
          files := files[Temp(id) := Ciphertext(data)];
          return Created, o;
        }
        Discard(Temp(id), w.unlinkOk);
        assert w.unlinkOk ==> files == old(files);
        return if w.vaultWrite == VaultLocked then Locked else InternalError, o;
      }
      if !w.tempOk { return InternalError, o; }
      var written, taken;
      o, written, taken := StagePlain(w.upload, hash);
      files := files[Temp(id) := PlainBytes(written)];
      if o.Staged? { return Created, o; }
      Discard(Temp(id), w.unlinkOk);
      assert w.unlinkOk ==> files == old(files);
      return if o.TooLarge? then Refused else InternalError, o;
    }

    /** After the whole request, whatever happened: no other file was touched, and a file of this request
        remains exactly when the submit was fresh, or a file had been made and could not be removed, or
        the JSON check raised something unexpected.  The published file holds the upload, and under the
        vault no plaintext remains. */
    method Create(id: nat, w: World, hash: Hash) returns (r: Response)
      requires Temp(id) !in files
      modifies this
      ensures forall f :: f in old(files) ==> f in files && files[f] == old(files)[f]
      ensures forall f :: f in files && f !in old(files) ==> f == Temp(id) || f == Published(id)
      ensures (exists f :: f in files && f !in old(files))
              <==> r == Created || r == Escaped || (TempMade(w, hash) && !w.unlinkOk)
      ensures r == Created <==> StagedWell(w, hash) && w.json != CheckRaises && !w.ciphertextTooLarge
                                && Published(id) !in old(files) && w.renameOk && w.submit == Fresh
      ensures r == Escaped <==> StagedWell(w, hash) && w.json == CheckRaises
      ensures r == Locked <==> w.vaultOn && w.tempOk && Verdict(w, hash).Staged? && w.vaultWrite == VaultLocked
      ensures r == Replayed <==> Publishes(w, hash) && Published(id) !in old(files)
                                 && (w.submit == ReplayPending || w.submit == ReplayCommitted)
      ensures r == Refused <==>
                || (Verdict(w, hash).TooLarge? && (w.vaultOn || w.tempOk))
                || (w.tempOk && Verdict(w, hash).Staged? && Verdict(w, hash).size == 0
                    && (w.vaultOn ==> w.vaultWrite == Written))
                || (StagedWell(w, hash) && w.json != CheckRaises && w.ciphertextTooLarge)
                || (Publishes(w, hash) && Published(id) !in old(files)
                    && (w.submit == Conflict || w.submit == QueueFull || w.submit == NotReady))
      ensures r == Created ==> files == old(files)[Published(id) :=
                if w.vaultOn then Ciphertext(Received(w.upload.chunks)) else PlainBytes(Received(w.upload.chunks))]
      ensures w.vaultOn ==> forall f :: f in files && f !in old(files) ==> !files[f].PlainBytes?
    {
      var o;
      r, o := StageUpload(id, w, hash);
      if r != Created { return; }
      ghost var staged := files[Temp(id)];
      if o.size == 0 {
        Discard(Temp(id), w.unlinkOk);
        return Refused;
      }
      if w.json == CheckRaises {
        assert Temp(id) in files && Temp(id) !in old(files);
        return Escaped;
      }
      if w.ciphertextTooLarge {
        Discard(Temp(id), w.unlinkOk);
        return Refused;
      }
      if Published(id) in files || !w.renameOk {
        Discard(Temp(id), w.unlinkOk);
        return InternalError;
      }
      files := (files - {Temp(id)})[Published(id) := files[Temp(id)]];
      assert files == old(files)[Published(id) := staged];
      assert Published(id) in files && Published(id) !in old(files);
      if w.submit == Fresh { return Created; }
      Discard(Published(id), w.unlinkOk);
      r := if w.submit == ReplayPending || w.submit == ReplayCommitted then Replayed
           else if w.submit == SubmitRaises then InternalError else Refused;
    }
  }
}
