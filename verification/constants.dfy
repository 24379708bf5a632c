/** Names and limits the program fixes. The label names live in a constants
    file that is not part of this model: the values below are stand-ins, and
    nothing in the model depends on them beyond their being distinct. */
module Constants {

  /** Label Docker Compose puts on a container naming its project. */
  const ProjectLabel: string := "com.docker.compose.project"

  /** Label switching backup on (`"true"`) or off (`"false"`) for a container. */
  const EnableLabel: string := "garrison.enable"

  /** Comma-separated volume names to back up. */
  const VolumeIncludeLabel: string := "garrison.volumes.include"

  /** Comma-separated volume names not to back up. */
  const VolumeExcludeLabel: string := "garrison.volumes.exclude"

  /** Label opting a container's bind mounts in (`"true"`). */
  const BindMountsLabel: string := "garrison.bind_mounts"

  /** Prefix of every backup job's container name. */
  const JobPrefix: string := "garrison_"

  /** HTTP status the daemon answers when the container name is taken. */
  const ConflictStatus: int := 409

  /** Seconds a new backup job may stay in the `created` state. */
  const StartTimeout: int := 30

  /** Seconds after which the completion wait notes, and ignores, the deadline. */
  const CompletionDeadline: int := 120

  /** Exit status reported for a container that has not exited. */
  const StillRunning: int := -1
}
