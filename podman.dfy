/**
 * The sequential operations of the podman connection handle: prefix discovery of
 * containers and volumes, the exactly-one container lookup, the batch volume
 * removal request and the retrying image pull.
 *
 * Every call the handle makes to the engine over varlink becomes an input: the
 * engine's answer to a list call, the outcome of each pull attempt, the engine's
 * reply to the remove request. The handle's context and connection are therefore
 * not represented.
 */
module Podman {
  import opened Wrappers
  import opened Text
  import opened PodmanErrors
  import opened PrefixMatch

  /** The label key under which resources record their generation. */
  const LabelGeneration: string := "io.kubevirt/pack8s.generation"

  /** The engine's default varlink address. */
  const DefaultSocket: string := "unix:/run/podman/io.podman"

  /** A container as the engine lists it; `names` is the engine's (singular) name field. */
  datatype Container = Container(id: string, names: string)

  /** A volume as the engine lists it. */
  datatype Volume = Volume(name: string, mountPoint: string)

  function ContainerNames(c: Container): string
  {
    c.names
  }

  function VolumeName(v: Volume): string
  {
    v.name
  }

  /**
   * The containers the engine lists whose name starts with `prefix`, in the
   * engine's order. When the list call fails, no container and that same error.
   */
  method GetPrefixedContainers(listing: Result<seq<Container>, Error>, prefix: string)
    returns (ret: seq<Container>, err: Option<Error>)
    ensures listing.Failure? ==> ret == [] && err == Some(listing.error)
    ensures listing.Success? ==> ret == KeepPrefixed(listing.value, ContainerNames, prefix) && err == None
  {
    ret := [];
    if listing.Failure? {
      return ret, Some(listing.error);
    }
    var containers := listing.value;
    for i := 0 to |containers|
      invariant ret == KeepPrefixed(containers[..i], ContainerNames, prefix)
    {
      var cont := containers[i];
      assert containers[..i + 1][..i] == containers[..i];
      if HasPrefix(cont.names, prefix) {
        ret := ret + [cont];
      }
    }
    assert containers[..|containers|] == containers;
    return ret, None;
  }

  /**
   * The volumes the engine lists whose name starts with `prefix`, in the engine's
   * order. When the list call fails, no volume and that same error.
   */
  method GetPrefixedVolumes(listing: Result<seq<Volume>, Error>, prefix: string)
    returns (ret: seq<Volume>, err: Option<Error>)
    ensures listing.Failure? ==> ret == [] && err == Some(listing.error)
    ensures listing.Success? ==> ret == KeepPrefixed(listing.value, VolumeName, prefix) && err == None
  {
    ret := [];
    if listing.Failure? {
      return ret, Some(listing.error);
    }
    var volumes := listing.value;
    for i := 0 to |volumes|
      invariant ret == KeepPrefixed(volumes[..i], VolumeName, prefix)
    {
      var vol := volumes[i];
      assert volumes[..i + 1][..i] == volumes[..i];
      if HasPrefix(vol.name, prefix) {
        ret := ret + [vol];
      }
    }
    assert volumes[..|volumes|] == volumes;
    return ret, None;
  }

  /** The error FindPrefixedContainer reports when no container, or more than one, matches. */
  function NotFound(prefixedName: string): Error
  {
    Errorf("failed to found the container with name " + prefixedName)
  }

  /**
   * The one container whose name starts with `prefixedName`. It succeeds if and
   * only if exactly one listed container matches, and then returns that one;
   * with none or several it reports NotFound; a failed list call is passed on.
   */
  method FindPrefixedContainer(listing: Result<seq<Container>, Error>, prefixedName: string)
    returns (r: Result<Container, Error>)
    ensures listing.Failure? ==> r == Failure(listing.error)
    ensures listing.Success? ==>
      (r.Success? <==> ExactlyOneMatch(listing.value, ContainerNames, prefixedName))
    ensures listing.Success? && r.Success? ==>
      exists i :: 0 <= i < |listing.value| && listing.value[i] == r.value
        && HasPrefix(r.value.names, prefixedName)
    ensures listing.Success? && r.Success? ==>
      forall i :: 0 <= i < |listing.value| && HasPrefix(listing.value[i].names, prefixedName) ==>
        listing.value[i] == r.value
    ensures listing.Success? && r.Failure? ==> r.error == NotFound(prefixedName)
  {
    var containers, err := GetPrefixedContainers(listing, prefixedName);
    if err.Some? {
      return Failure(err.value);
    }
    SingleKeptIffExactlyOne(listing.value, ContainerNames, prefixedName);
    if |containers| != 1 {
      return Failure(NotFound(prefixedName));
    }
    KeepPrefixedSelects(listing.value, ContainerNames, prefixedName);
    ghost var i := MatchingIndices(listing.value, ContainerNames, prefixedName)[0];
    assert listing.value[i] == containers[0];
    return Success(containers[0]);
  }

  /** The request RemoveVolumes sends: the volume names and whether removal is forced. */
  datatype VolumeRemoveOpts = VolumeRemoveOpts(volumes: seq<string>, force: bool)

  /**
   * The forced batch removal request for `volumes`: one name per volume, in order.
   * The engine's reply to that request is returned unchanged.
   */
  method RemoveVolumes(volumes: seq<Volume>, reply: Option<Error>)
    returns (request: VolumeRemoveOpts, err: Option<Error>)
    ensures |request.volumes| == |volumes|
    ensures forall i :: 0 <= i < |volumes| ==> request.volumes[i] == volumes[i].name
    ensures request.force
    ensures err == reply
  {
    var volumeNames: seq<string> := [];
    for i := 0 to |volumes|
      invariant |volumeNames| == i
      invariant forall k :: 0 <= k < i ==> volumeNames[k] == volumes[k].name
    {
      volumeNames := volumeNames + [volumes[i].name];
    }
    request := VolumeRemoveOpts(volumeNames, true);
    err := reply;
  }

  /** Seconds to wait before each pull attempt; the first attempt does not wait. */
  const Tries: seq<nat> := [0, 1, 2, 6]

  /** The total of a delay schedule. */
  function Sum(delays: seq<nat>): nat
  {
    if delays == [] then 0 else Sum(delays[..|delays| - 1]) + delays[|delays| - 1]
  }

  /** The error PullImage returns once every attempt has failed. */
  function PullFailed(ref: string): Error
  {
    Errorf("failed to download " + ref + " " + NatToString(|Tries|) + " times, giving up.")
  }

  /**
   * Pulls `ref`, attempting once per entry of Tries after waiting that many
   * seconds; `succeeded[k]` is the outcome of attempt k. It stops right after the
   * first successful attempt, with no error; after |Tries| failures it gives up
   * with PullFailed. `slept` counts the seconds waited.
   */
  method PullImage(ref: string, succeeded: seq<bool>)
    returns (err: Option<Error>, attempts: nat, ghost slept: nat)
    requires |succeeded| == |Tries|
    ensures 1 <= attempts <= |Tries|
    ensures forall k :: 0 <= k < attempts - 1 ==> !succeeded[k]
    ensures err == None <==> succeeded[attempts - 1]
    ensures err != None ==> attempts == |Tries| && err == Some(PullFailed(ref))
    ensures slept == Sum(Tries[..attempts])
    ensures (forall k :: 0 <= k < |Tries| ==> !succeeded[k]) ==> attempts == 4 && slept == 9
  {
    attempts, slept := 0, 0;
    for idx := 0 to |Tries|
      invariant attempts == idx
      invariant slept == Sum(Tries[..idx])
      invariant forall k :: 0 <= k < idx ==> !succeeded[k]
    {
      assert Tries[..idx + 1][..idx] == Tries[..idx];
      slept := slept + Tries[idx];
      attempts := attempts + 1;
      if !succeeded[idx] {
        continue;
      }
      return None, attempts, slept;
    }
    assert Tries[..|Tries|] == Tries;
    TotalBackoff();
    return Some(PullFailed(ref)), attempts, slept;
  }

  /** The whole schedule waits 0 + 1 + 2 + 6 = 9 seconds. */
  lemma TotalBackoff()
    ensures Sum(Tries) == 9
  {
    assert Tries[..3] == [0, 1, 2];
    assert [0, 1, 2][..2] == [0, 1];
    assert [0, 1][..1] == [0];
    assert [0][..0] == [];
  }

  /** The error after an exhausted pull names the image reference and the attempt count. */
  lemma PullFailedNamesRefAndCount(ref: string)
    ensures IsInfix(ref, PullFailed(ref).text)
    ensures IsInfix("4", PullFailed(ref).text)
  {
    var msg := PullFailed(ref).text;
    assert NatToString(|Tries|) == "4";
    var head := "failed to download " + ref;
    InfixAtEnd("failed to download ", ref);
    InfixExtendedRight(ref, head, " ");
    InfixExtendedRight(ref, head + " ", "4");
    InfixExtendedRight(ref, head + " " + "4", " times, giving up.");
    InfixAtEnd(head + " ", "4");
    InfixExtendedRight("4", head + " " + "4", " times, giving up.");
  }

  /** The lookup failure names the prefix that was looked up. */
  lemma NotFoundNamesPrefix(prefixedName: string)
    ensures IsInfix(prefixedName, NotFound(prefixedName).text)
  {
    InfixAtEnd("failed to found the container with name ", prefixedName);
  }

  /**
   * Three volumes "pack8s-1-test", "pack8s-2-test" and "some-pack-test": the
   * prefix "pack8s" selects the first two.
   */
  lemma PrefixedVolumesExample(m1: string, m2: string, m3: string)
    ensures var vs := [Volume("pack8s-1-test", m1), Volume("pack8s-2-test", m2), Volume("some-pack-test", m3)];
      KeepPrefixed(vs, VolumeName, "pack8s") == vs[..2]
  {
    var vs := [Volume("pack8s-1-test", m1), Volume("pack8s-2-test", m2), Volume("some-pack-test", m3)];
    assert HasPrefix(VolumeName(vs[0]), "pack8s");
    assert HasPrefix(VolumeName(vs[1]), "pack8s");
    assert !HasPrefix(VolumeName(vs[2]), "pack8s") by {
      assert "some-pack-test"[0] != "pack8s"[0];
    }
    assert vs[..1][..0] == [];
    assert KeepPrefixed(vs[..1], VolumeName, "pack8s") == [vs[0]];
    assert vs[..2][..1] == vs[..1];
    assert KeepPrefixed(vs[..2], VolumeName, "pack8s") == [vs[0], vs[1]];
    assert vs[..|vs| - 1] == vs[..2];
  }

  /**
   * Containers "pack8s-test" and "pack8s-test-1": the prefix "pack8s-test"
   * matches both, so the lookup is ambiguous.
   */
  lemma AmbiguousPrefixExample(id1: string, id2: string)
    ensures !ExactlyOneMatch([Container(id1, "pack8s-test"), Container(id2, "pack8s-test-1")], ContainerNames, "pack8s-test")
  {
    var cs := [Container(id1, "pack8s-test"), Container(id2, "pack8s-test-1")];
    assert HasPrefix(ContainerNames(cs[0]), "pack8s-test");
    assert HasPrefix(ContainerNames(cs[1]), "pack8s-test");
  }

  /**
   * Containers "pack8s-test" and "test-1": the prefix "pack8s-test" matches only
   * the first.
   */
  lemma UniquePrefixExample(id1: string, id2: string)
    ensures ExactlyOneMatch([Container(id1, "pack8s-test"), Container(id2, "test-1")], ContainerNames, "pack8s-test")
  {
    var cs := [Container(id1, "pack8s-test"), Container(id2, "test-1")];
    assert HasPrefix(ContainerNames(cs[0]), "pack8s-test");
    assert !HasPrefix(ContainerNames(cs[1]), "pack8s-test") by {
      assert "test-1"[0] != "pack8s-test"[0];
    }
    assert forall j :: 0 <= j < |cs| && HasPrefix(ContainerNames(cs[j]), "pack8s-test") ==> j == 0;
  }
}
