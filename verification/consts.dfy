/** The constants of the add-on: the error messages and the file extensions
    it counts as video. */
module Const {

  const EXPIRED_API_KEY: string := "Expired API key"
  const ACCESS_DENIED: string := "Access denied"
  const TWO_FACTOR_AUTH: string := "Two factor authentication required"
  const NOT_PREMIUM: string := "Premium account required"
  const NOT_READY: string := "Torrent not ready"
  const INVALID_API_KEY: string := "Invalid API key"

  const VIDEO_EXTENSIONS: seq<string> :=
    [".mp4", ".mkv", ".avi", ".mov", ".wmv", ".flv", ".webm", ".m4v", ".ts"]

  /** The prefix both the Torrentio mapping and the stored candidates use. */
  const MAGNET_PREFIX: string := "magnet:?xt=urn:btih:"
}
