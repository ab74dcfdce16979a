# pack8s podman handle, modelled in Dafny

This project models the sequential core of pack8s's podman client handle
(`internal/pkg/podman/podman.go`). The handle talks to a podman engine over a
varlink connection. The model covers the parts of the handle that do more than
forward one call:

- **Error translator** (`SprintError`): renders a diagnostic string from the
  concrete kind of a varlink/podman error. The Go type switch becomes the
  `PodmanErrors.Error` datatype, with one variant per recognised error type plus
  `EOF`, `UnexpectedEOF` and `Other(typeName, text)` for everything else. Each
  variant carries its opaque `%v` text and the named fields the translator
  prints.
- **Prefix discovery** (`GetPrefixedContainers`, `GetPrefixedVolumes`): these
  keep, in the engine's order, the listed records whose name starts with a
  prefix. The engine's list answer is an input: either the records or an error.
  Both loops are proved against one generic specification, `PrefixMatch.KeepPrefixed`.
- **Exactly-one lookup** (`FindPrefixedContainer`): it succeeds if and only if
  exactly one listed container matches the prefix.
- **Batch volume removal** (`RemoveVolumes`): builds the forced remove request,
  which lists one name per volume in order. The request is returned as a value,
  and the engine's reply is an input that is passed back unchanged.
- **Resilient pull** (`PullImage`): makes up to four attempts after waiting
  0, 1, 2 and 6 seconds. It returns on the first success and gives up after the
  fourth failure. Each attempt's outcome is an input (`succeeded[k]`). The time
  spent waiting is a ghost counter of seconds.

Files: `wrappers.dfy` (Option/Result), `text.dfy` (Go's `strings.HasPrefix`,
substring containment, `%d` rendering), `errors.dfy` (the error kinds and the
translator), `prefix.dfy` (the prefix-filter specification and its lemmas) and
`podman.dfy` (the handle's operations).

Three behaviours of the code that are easy to misread:

- The code's `NewHandle` takes only a context and always dials the default socket.
- `RemoveVolumes` sends the names as an ordered list, duplicates included, not as a set.
- Zero matches and several matches produce the same error,
  "failed to found the container with name <prefix>".

## Model

| member | source | states |
|---|---|---|
| PodmanErrors.SprintError | internal/pkg/podman/podman.go:25-86 | the diagnostic always starts with "Error calling <method>: ", so it contains the method name, and it always ends with a newline |
| PodmanErrors.ShownVerbatim | internal/pkg/podman/podman.go:28-83 | every recognised error kind shows its `%v` text and each named field (name, podname, errors, reason, parameter, method, interface, parameters) verbatim; an unrecognised error shows its type name and text |
| PodmanErrors.ClosedOnlyForEOF | internal/pkg/podman/podman.go:76-78 | the diagnostic is "Connection closed" if and only if the error is io.EOF |
| PodmanErrors.AbortedOnlyForUnexpectedEOF | internal/pkg/podman/podman.go:79-80 | the diagnostic is "Connection aborted" if and only if the error is io.ErrUnexpectedEOF |
| PodmanErrors.MethodNameDetermined | internal/pkg/podman/podman.go:27 | for the same error, two diagnostics are equal only when the method names are equal |
| PrefixMatch.KeepPrefixed | internal/pkg/podman/podman.go:182-188 | the filter keeps at most as many records as it is given, and only listed records whose name starts with the prefix |
| PrefixMatch.KeepPrefixedSelects | internal/pkg/podman/podman.go:182-188 | the filter's result is the subsequence of the listing at the matching positions, in ascending order; a position is kept if and only if its name starts with the prefix |
| PrefixMatch.EmptyPrefixKeepsAll | internal/pkg/podman/podman.go:184 | with an empty prefix every listed record is returned, in order |
| PrefixMatch.NarrowingPrefix | internal/pkg/podman/podman.go:184 | filtering by a prefix and then by a longer prefix that extends it equals filtering by the longer one; the same prefix twice is idempotent |
| PrefixMatch.SingleKeptIffExactlyOne | internal/pkg/podman/podman.go:221-224 | the filter keeps exactly one record if and only if exactly one listed position matches, and then it keeps the record at that position |
| Podman.GetPrefixedContainers | internal/pkg/podman/podman.go:174-191 | on a failed list call, an empty result and the same error; otherwise the prefix filter of the listed containers by name, and no error |
| Podman.GetPrefixedVolumes | internal/pkg/podman/podman.go:193-211 | on a failed list call, an empty result and the same error; otherwise the prefix filter of the listed volumes by name, and no error |
| Podman.FindPrefixedContainer | internal/pkg/podman/podman.go:213-225 | a failed list call's error is passed on; otherwise it succeeds if and only if exactly one listed container matches, returns the listed container that matches (every matching position holds it), and reports NotFound(prefix) for zero or several matches |
| Podman.NotFoundNamesPrefix | internal/pkg/podman/podman.go:222 | the lookup error's message contains the requested prefix |
| Podman.RemoveVolumes | internal/pkg/podman/podman.go:227-238 | the request lists exactly one name per input volume, the i-th name being the i-th volume's name, with forced removal; the engine's reply is returned unchanged |
| Podman.PullImage | internal/pkg/podman/podman.go:267-283 | 1 to 4 attempts; every attempt before the last one made failed; the result is no error exactly when the last attempt made succeeded; the error after four failures is PullFailed(ref); the seconds waited are the sum of the schedule up to the attempts made, so 4 attempts and 9 seconds when all fail |
| Podman.TotalBackoff | internal/pkg/podman/podman.go:268 | the delay schedule adds up to 9 seconds |
| Podman.PullFailedNamesRefAndCount | internal/pkg/podman/podman.go:282 | the give-up error's message contains the image reference and the attempt count 4 |
| Podman.PrefixedVolumesExample | internal/pkg/podman/podman_test.go:71-83 | of "pack8s-1-test", "pack8s-2-test" and "some-pack-test", the prefix "pack8s" keeps the first two |
| Podman.AmbiguousPrefixExample | internal/pkg/podman/podman_test.go:206-221 | with "pack8s-test" and "pack8s-test-1" listed, the prefix "pack8s-test" does not match exactly one container |
| Podman.UniquePrefixExample | internal/pkg/podman/podman_test.go:176-192 | with "pack8s-test" and "test-1" listed, the prefix "pack8s-test" matches exactly one container |

## Left out

- `Terminal` (podman.go:107-163) is not modelled. It attaches to a container with four goroutines feeding an unbuffered channel, an OS interrupt that closes that channel, and raw-mode terminal switching. Sequential Dafny cannot capture any of this meaningfully.
- `NewHandle` is not modelled: it only opens the varlink connection and logs. The handle's context and connection are not represented; every engine answer is a parameter instead.
- `Exec`, `RemoveContainer`, `CreateNamedVolume`, `CreateContainer`, `StopContainer`, `StartContainer` and `WaitContainer` are not modelled: each one only forwards a single engine call.
- Logging (`log.Printf`) is not modelled, and neither are the real `time.Sleep` calls. The waiting is only a ghost counter of seconds, `slept`.
- PullImage: the per-attempt errors are reduced to a success flag, because the code only logs them. The unused `out io.Writer` parameter is dropped.
- RemoveVolumes: the varlink call is not made. The model returns the request and takes the engine's reply as an input.
- SprintError: Go's `%v` and `%T` renderings of the foreign error values are opaque strings carried by each variant. This includes the `%v` of a PodContainerError's error list and of a varlink.Error's parameters. A nil error would fall into `Other` with type name and text "<nil>".
- Container and Volume records carry only the fields the core reads: a container's Id and Names, a volume's Name and MountPoint. The engine's other fields pass through unchanged and are not represented.
- The test file `internal/pkg/podman/podman_test.go` is not modelled as a target. It runs against a live daemon and calls functions that `podman.go` does not define (`NewHandle(ctx, "")`, `GetAllVolumes`, `ListImages`). It is used only for the three example lemmas.
