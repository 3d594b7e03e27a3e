/** Sizes shared by the components. */
module Config {
  const PAGE_SIZE := 4096
  const LOG_BUFFER_SIZE := 1024 * PAGE_SIZE
}
